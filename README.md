# wakey: Wake-on-LAN magic packets, modelled in Dafny

`wakey` is a small Rust library that builds and sends Wake-on-LAN magic packets.
A magic packet is 102 bytes. It starts with six `0xFF` bytes. The target's 6-byte MAC
address follows, sixteen times in a row. This is AMD's Magic Packet layout; no RFC
defines it.

A `WolPacket` is built in one of two ways:

- `from_bytes` takes the raw MAC and accepts exactly 6 bytes.
- `from_string` takes text such as `"01:02:03:04:05:06"` and a separator character.
  It calls `mac_to_byte`, which splits the text on the separator, runs the UTF-8 bytes
  of the pieces together, hex-decodes them and insists on six bytes.

The model has six modules, one per file:

| file | module | what it holds |
|---|---|---|
| `wrappers.dfy` | `Wrappers` | `Result` |
| `utf8.dfy` | `Utf8` | the `uint8` byte type; the UTF-8 bytes of a string, as `str::bytes` yields them |
| `str.dfy` | `Str` | `str::split` on a `char`, joining, removing a character, flattening the pieces' bytes |
| `hex.dfy` | `Hex` | `hex::decode` and `hex::encode`/`encode_upper` as this model defines them |
| `wakey.dfy` | `Wakey` | the library: constants, `Error`, `WolPacket`, `extend_mac`, `create_packet_bytes`, `from_bytes`, `mac_to_byte`, `from_string` |
| `wakey_tests.dfy` | `WakeyTests` | the library's unit tests, stated as lemmas |

Some behaviour worth knowing, all proved below:

- The separator is stripped wherever it occurs, even inside an octet. So `"0:1:02:03:04:05:06"`
  parses like `"01:02:03:04:05:06"`.
- A separator that is itself a hex digit also removes that digit from the octets, so
  the round trip through the canonical text form can fail. With `'a'` as the separator,
  the MAC `aa:00:00:00:00:00` is written `"aaa00a00a00a00a00"`, which keeps ten zeros and
  is refused with `InvalidHexStringLength`. With any separator that is not a hex digit
  the round trip holds for every 6-byte MAC.
- Decoding works on UTF-8 bytes. A non-ASCII character is therefore reported as its
  first byte, widened to a `char`, at that byte's position. Positions count bytes of the
  stripped text, not characters of the input.
- The hex decoder refuses an odd number of digits before it looks at any digit.
  `"01002:03:04:05:06"` strips to 13 digits, so this model rejects it with
  `Hex(OddLength)`, not with `InvalidHexStringLength`. The library's test only asserts
  that it is an error; `WakeyTests.RejectsMisplacedSeparator` proves the exact error.
- Empty text, or text made only of separators, decodes to no bytes. It is refused with
  `InvalidHexStringLength`.
- A `WolPacket` holds `PacketData`, a byte string whose type fixes its length at 102.
- `from_string` never returns `InvalidHexArrayLength`, because a successful `mac_to_byte`
  always gives six bytes. Its packet is always the 102-byte layout.
- The doc comment at src/lib.rs:65-66 says `from_string` panics on an invalid MAC. The
  code returns an error instead, and the model follows the code.

## Model

| member | source | states |
|---|---|---|
| `Utf8.EncodeChar` | src/lib.rs:110 | an ASCII character is one byte equal to its code; any other character is 2 to 4 bytes, every one of them 0x80 or above |
| `Utf8.Encode` | src/lib.rs:110 | `str::bytes` gives at least one byte per character, and exactly one per character precisely when every character is ASCII; `Utf8.EncodeAppend` shows it distributes over concatenation |
| `Utf8.EncodeAscii` | src/lib.rs:110 | the bytes of an all-ASCII string are its character codes, one byte per character |
| `Utf8.EncodeAfterAsciiPrefix` | src/lib.rs:110 | after an ASCII prefix, the bytes are the prefix's codes, then the first byte of the next character |
| `Utf8.EncodeLowBytesAreAscii` | src/lib.rs:110 | if every byte of a string's encoding is below 0x80, every character is ASCII |
| `Str.Split` | src/lib.rs:108-109 | `split(sep)` gives one more piece than there are separators, and no piece contains the separator |
| `Str.JoinSplit` | src/lib.rs:108-109 | joining the pieces with the separator gives the input back, so splitting loses nothing else |
| `Str.Remove` | src/lib.rs:108-112 | stripping leaves no separator, keeps only the input's own characters, and is shorter by the number of separators |
| `Str.FlattenBytes` | src/lib.rs:110-111 | `.map(\|v\| v.bytes()).flatten()` is the bytes of the pieces run together |
| `Str.ConcatSplit` | src/lib.rs:108-109 | running the pieces of `split(sep)` together is the input with every separator stripped |
| `Str.FlattenSplitIsRemove` | src/lib.rs:108-112 | flattening the bytes of the pieces equals the bytes of the input with every separator removed |
| `Str.RemoveJoin` | src/lib.rs:108-112 | separator-free pieces joined by the separator strip back to the pieces run together |
| `Hex.DecodePairs` | src/lib.rs:114 | pair-wise decoding succeeds exactly when every byte is a hex digit; it then gives half as many bytes, byte k being 16 × digit 2k + digit 2k+1; otherwise it reports the first non-digit, with its absolute position and the byte as a character |
| `Hex.Decode` | src/lib.rs:114 | `hex::decode` gives `OddLength` exactly for odd lengths; it succeeds exactly for even runs of hex digits (either case), with the bytes above; otherwise it reports the first non-digit and its index |
| `Hex.DecodeToHex` | src/lib.rs:114 | decoding the hex encoding of any bytes, lower or upper case, gives those bytes back |
| `Wakey.Repeat` | src/lib.rs:124 | `n` copies of `s` are `n · len(s)` bytes, all taken from `s` |
| `Wakey.RepeatBlock` | src/lib.rs:124 | copy `i` of `s` sits at `[len(s)·i, len(s)·(i+1))` |
| `Wakey.ExtendMac` | src/lib.rs:123-125 | `extend_mac` is `16 · len(mac)` bytes, all taken from the MAC |
| `Wakey.ExtendMacBlock` | src/lib.rs:123-125 | for every `i` below 16, bytes `[len(mac)·i, len(mac)·(i+1))` of `extend_mac(mac)` equal `mac` |
| `Wakey.PacketBytes` | src/lib.rs:129-136 | the packet `from_bytes` stores is `6 + 16 · len(mac)` bytes: six 0xFF bytes, then only bytes of the MAC; `Wakey.PacketLayout` pins each slot |
| `Wakey.PacketLayout` | src/lib.rs:129-136 | for a 6-byte MAC the packet bytes are 102 bytes: the 0xFF header, then the MAC in every slot `[6+6i, 6+6i+6)`; no other byte string has that layout |
| `Wakey.CreatePacketBytes` | src/lib.rs:129-136 | extending an empty vector with the header, then with the extended MAC, gives `6 + 16 · len(mac)` bytes, and the magic-packet layout when the MAC has 6 bytes |
| `Wakey.FromBytes` | src/lib.rs:50-58 | `from_bytes` succeeds exactly for 6 bytes, with the magic packet of those bytes; every other length gives `InvalidHexArrayLength` |
| `Wakey.CheckDecoded` | src/lib.rs:114-119 | a decoding error surfaces as `Hex(e)`; decoded bytes are returned exactly when there are 6, else `InvalidHexStringLength` |
| `Wakey.MacToByte` | src/lib.rs:107-120 | a successful `mac_to_byte` gives exactly 6 bytes; its only errors are `Hex(_)` and `InvalidHexStringLength` |
| `Wakey.FromString` | src/lib.rs:67-70 | `from_string` succeeds exactly when `mac_to_byte` does, with the magic packet of its bytes; its errors are `mac_to_byte`'s, verbatim, and never `InvalidHexArrayLength` |
| `Wakey.MacToByteStripsSeparator` | src/lib.rs:107-119 | `mac_to_byte` equals hex-decoding the input's bytes with every separator removed, then the 6-byte check |
| `Wakey.MacToByteWithoutSeparator` | src/lib.rs:108-114 | an input without the separator is decoded whole |
| `Wakey.MacToByteOnlySeparators` | src/lib.rs:114-119 | empty input, or input made only of separators, gives `InvalidHexStringLength` |
| `Wakey.MacToByteIgnoresSeparator` | src/lib.rs:108-112 | inserting a separator anywhere, even mid-octet, changes nothing |
| `Wakey.MacToByteAccepts` | src/lib.rs:107-120 | `mac_to_byte` succeeds exactly when the stripped text is twelve ASCII hex digits |
| `Wakey.DecodeAfterHexPrefix` | src/lib.rs:110-114 | text whose first non-digit character follows only hex digits and starts with a non-digit byte decodes, at an even byte count, to an error naming that byte as a `char` and its position |
| `Wakey.MacToByteFirstInvalid` | src/lib.rs:108-114 | the same for `mac_to_byte`, applied to the text with the separator stripped |
| `Wakey.MacToByteInvalidCharacter` | src/lib.rs:108-114 | when the stripped text's first non-digit is an ASCII character at position `i` and the byte count is even, the error names that character and `i`, whatever follows |
| `Wakey.MacToByteOddLength` | src/lib.rs:108-114 | when the stripped text has an odd number of bytes, the result is `Hex(OddLength)`, whatever the digits |
| `Wakey.MacToByteNonAscii` | src/lib.rs:108-114 | a non-ASCII character that follows only hex digits is reported as its first UTF-8 byte, widened to a `char`, at that byte's position, when the byte count is even |
| `Wakey.MacToByteFormatMac` | src/lib.rs:106-120 | every 6-byte MAC written as in the doc comment (`00:01:02:03:04:05`) parses back to itself, in either case, with any separator that is not a hex digit |
| `WakeyTests.ExtendSixByteMac` | src/lib.rs:141-155 | for a 6-byte MAC, `extend_mac` is 96 bytes and every block `[6i, 6i+6)` is the MAC |
| `WakeyTests.ParsesColonSeparated` | src/lib.rs:157-165 | `mac_to_byte("01:02:03:04:05:06", ':')` is `[1, 2, 3, 4, 5, 6]` |
| `WakeyTests.RejectsInvalidCharacter` | src/lib.rs:167-181 | `mac_to_byte("ZZ:02:03:04:05:06", ':')` is `Hex(InvalidHexCharacter { c: 'Z', index: 0 })` |
| `WakeyTests.RejectsMisplacedSeparator` | src/lib.rs:183-187 | `mac_to_byte("01002:03:04:05:06", ':')` is an error, namely `Hex(OddLength)` |
| `WakeyTests.HexDigitSeparatorBreaksRoundTrip` | src/lib.rs:106-120 | the MAC `aa:00:00:00:00:00` written with `'a'` as its separator is `"aaa00a00a00a00a00"`, and `mac_to_byte` refuses it with `InvalidHexStringLength` |
| `WakeyTests.AllOnesPacket` | src/lib.rs:189-198 | the packet of six 0xFF bytes is 102 bytes, all 0xFF |
| `WakeyTests.ParsesSpaceSeparatedUpperCase` | src/lib.rs:202 | `from_string("DE AD BE EF CA FE", ' ')` succeeds, on the bytes `DE AD BE EF CA FE` |

## Left out

- `send_magic` and `send_magic_to` (src/lib.rs:81-104) are left out. They bind a UDP
  socket, enable broadcast, send one datagram and resolve addresses, all of which is OS I/O.
  The default endpoints `0.0.0.0:0` and `255.255.255.255:9` go with them.
- The network half of the `send_test_packet` test (src/lib.rs:203-216) is left out for the
  same reason. Its `from_string` call is `WakeyTests.ParsesSpaceSeparatedUpperCase`.
- The `From<std::io::Error>` conversion (src/lib.rs:32-36) is left out. `Error.IO` carries
  no payload, because the wrapped `std::io::Error` is a foreign type.
- The `hex` crate's source is not part of this model. `Hex.Decode` is this model's own
  definition of it. It refuses an odd length first. It then reads the digits in pairs, in
  order, accepting either letter case, and reports the first non-digit byte as a `char`
  with its index. `FromHexError` has only the two variants that decoding into a vector
  can produce.
- The capacity reserved by `Vec::with_capacity` (src/lib.rs:130) does not affect the
  contents, so it is not modelled.
- Rust's `usize` limits are not modelled, and lengths are unbounded naturals. Every length
  is bounded by the input's byte length or by the fixed 102-byte packet. `extend_mac` and
  `create_packet_bytes` are only reached with a 6-byte MAC (src/lib.rs:51-53), so no
  `usize` arithmetic can overflow.
