# syx command-line core, modelled in Dafny

`syx` is a command-line tool for MIDI System Exclusive (SysEx) files. A SysEx message
is framed by the initiator byte 0xF0 and the terminator byte 0xF7. Between them comes
either a manufacturer identifier and a payload, or a universal header. Parsing,
splitting and serialising messages is done by the SysEx library the tool depends on.
That library is not part of this model. This project models the byte- and string-level
logic of the command handlers themselves:

- **receive** (`receive.dfy`): one line of ReceiveMIDI text becomes a framed buffer.
  A line counts only if it has at least three whitespace tokens and the first is
  `system-exclusive`. The second token picks the base: `hex` gives 16, anything else
  gives 10. Each later token is read as a `u8` in that base by `ParseByte`, which models
  `u8::from_str_radix`: an optional `+`, one or more digits, a value of at most 255.
  Tokens that fail are skipped. The result is `[0xF0] + bytes + [0xF7]`.
  `AssembleLine` is the token loop. It is proved equal to the function `Assembled`.
- **sections** (`sections.dfy`): the ordered `(kind, name, offset, length)` records
  for one parsed message and the buffer length. `BuildSections` keeps the running
  offset and grows the list. It is proved equal to `Layout`. Lemmas say when a layout
  tiles the buffer with no gap and no overlap.
- **make** (`make.dfy`): reading the manufacturer argument. A first character
  `'0'`–`'7'` selects a hexadecimal ID. Anything else selects a name lookup, which is
  a function parameter here. An ID beginning `"00"` must be 6 bytes long and any other
  ID 2 bytes, measured as `String::len` measures them (UTF-8 bytes). The ID and the
  payload are then decoded with `hex::decode`, modelled by `Hex.HexDecode`.
- **split** (`split.dfy`): message *i* (from 0) of a file with more than one message
  is written to `stem-NNN.ext`, where NNN is *i*+1 padded with zeros to width 3.
  `SplitFiles` is the writing loop. It returns the list of files it would write.

Supporting modules:

- `common.dfy`: bytes, `Option` and `Result`.
- `numerals.dfy`: digits as `char::to_digit` reads them and `format!` writes them.
- `hex.dfy`: the `hex` crate's `decode` and `encode`.
- `messages.dfy`: the shape of a parsed message as the handlers see it. Its contents
  are left abstract.

The model keeps two points where the code differs from what a byte-range view of a
message would be expected to do:

- One would expect the sections of a parsed message to cover the whole buffer. The
  code gives a universal message one 3-byte section and no payload
  section. A parse error gets only the initiator and the terminator.
  `UniversalLayout` and `ErrorLayout` prove that these layouts tile only a 5-byte and
  a 2-byte buffer.
- A universal header holds four bytes after the initiator: the 0x7E/0x7F kind, the
  target, and two sub-IDs. The code's section for it is 3 bytes long.

## Model

| member | source | states |
|---|---|---|
| `Receive.Assembled` | src/main.rs:316-339 | nothing for a line with fewer than 3 tokens or a first token other than `system-exclusive`; otherwise 0xF0, the decoded bytes of the tokens from the third on in the chosen base, then 0xF7 |
| `Receive.BaseOf` | src/main.rs:323 | base 16 when the second token is exactly `hex`, base 10 for every other token |
| `Receive.AssembleLine` | src/main.rs:313-339 | the token loop returns exactly `Assembled(parts)`: nothing for a short or non-SysEx line, otherwise the framed decoded bytes |
| `Receive.AssembledFraming` | src/main.rs:316-339 | a line yields data iff it has at least 3 tokens and the first is `system-exclusive`. The data is 0xF0, then one byte per parsing token in token order, then 0xF7. Its length is the number of parsing tokens plus 2 |
| `Receive.Framed` | src/main.rs:337-339 | framing the decoded bytes: length is parsing tokens + 2, first byte 0xF0, last 0xF7, byte k+1 is the value of the k-th parsing token |
| `Receive.DecodedPositions` | src/main.rs:327-335 | the decoded bytes correspond one to one with the tokens that parse: same order, increasing positions, no parsing token missed, nothing else added |
| `Receive.DecodedCount` | src/main.rs:327-335 | one decoded byte per parsing token |
| `Receive.DecodedAt` | src/main.rs:327-335 | the k-th decoded byte is the value of the k-th parsing token |
| `Receive.PositionsIncrease` | src/main.rs:327 | the parsing tokens are listed in input order |
| `Receive.PositionsComplete` | src/main.rs:328-329 | every token that parses contributes a byte |
| `Receive.DecodedAppend` | src/main.rs:327-335 | decoding distributes over concatenation of token lists |
| `Receive.DecodedSnoc` | src/main.rs:328-333 | one more token appends its byte, or nothing when it fails |
| `Receive.Decoded` | src/main.rs:327-335 | no more bytes than tokens |
| `Receive.ParseByte` | src/main.rs:328 | a token that parses is neither empty nor a lone `+` |
| `Receive.ParseNumeral` | src/main.rs:328 | every byte written in the base, with or without a leading `+`, parses back to itself |
| `Receive.ParseRejectsOverflow` | src/main.rs:328-332 | a digit string worth more than 255 is rejected, so it is skipped |
| `Receive.BaseExamples` | src/main.rs:323 | only the exact token `hex` selects base 16; `dec` and `HEX` select base 10, so `ff` is skipped and `255` kept under `HEX` |
| `Receive.ReceiveExample` | src/main.rs:316-339 | `hex 30 ZZ 28` gives F0 30 28 F7; a line of only invalid tokens gives F0 F7; a two-token or non-SysEx line gives nothing |
| `Sections.Layout` | src/main.rs:234-292 | the initiator section, then the middle sections of the parse result, then the terminator section at offset len-1; 2 to 4 sections, all before the terminator contiguous from offset 0 |
| `Sections.Middle` | src/main.rs:245-283 | a manufacturer section at offset 1 with the code's length and a payload section after it for a manufacturer-specific message, together as long as code and payload; one 3-byte Universal section at offset 1 for a universal message; nothing for a parse error |
| `Sections.BuildSections` | src/main.rs:230-292 | the running-offset construction returns exactly `Layout(parsed, bufferLen)` |
| `Sections.LayoutEnds` | src/main.rs:234-292 | For every parse result, the first section is the initiator at offset 0 with length 1, and the last section is the terminator at offset len-1 with length 1. |
| `Sections.ManufacturerLayout` | src/main.rs:246-263 | manufacturer section at offset 1 with the code's length, payload at 1 + code length with the payload's length. The four sections tile the buffer iff len == 2 + code + payload, and then their lengths sum to len |
| `Sections.UniversalLayout` | src/main.rs:265-279 | exactly one middle section, Universal at offset 1, length 3; no payload section; lengths sum to 5; tiles iff len == 5 |
| `Sections.ErrorLayout` | src/main.rs:280-282 | a parse error adds no middle section; tiles iff len == 2 |
| `Sections.TilesTotal` | src/main.rs:218-219 | sections that tile a buffer have lengths summing to its length |
| `Sections.ContiguousTotal` | src/main.rs:218-219 | contiguous sections sum to the span from the first offset to the end of the last |
| `Make.ResolveManufacturer` | src/main.rs:371-412 | an empty argument fails; a first character '0'–'7' applies `HexId`; any other first character returns the lookup's code, or fails when the lookup finds nothing |
| `Make.HexId` | src/main.rs:373-390 | an ID starting `00` must be 6 UTF-8 bytes and any other ID 2, else it fails with the matching length error; then the ID is `hex::decode`d, failing on text that is not hexadecimal; an accepted ID is 3 bytes starting 0x00 after `00`, else 1 byte |
| `Make.MakeMessage` | src/main.rs:388-431 | the resolved manufacturer code and the `hex::decode`d payload as a manufacturer-specific message; the manufacturer's error comes first, then the payload's |
| `Make.RouteByFirstChar` | src/main.rs:371-412 | a first character `'0'`–`'7'` never consults the name lookup; any other always does, and its result decides |
| `Make.IdLengthRules` | src/main.rs:373-384 | a hex ID starting `"00"` must be 6 UTF-8 bytes, any other hex ID 2 |
| `Make.AcceptedIdShape` | src/main.rs:373-390 | an accepted 2-character ID is one byte in 0x01–0x7F, and an accepted 6-character ID is 3 bytes led by 0x00 |
| `Make.DoubleZeroRefused` | src/main.rs:373-377 | `"00"` is refused as an extended ID of the wrong length |
| `Make.ValidCodeAccepted` | src/main.rs:371-390 | every valid manufacturer code written in hex is accepted as itself |
| `Make.MakeRoundTrip` | src/main.rs:388-396 | a valid code and any payload, both written in hex, build the manufacturer-specific message of exactly that code and payload |
| `Make.MakeHexPathShape` | src/main.rs:388-394 | a message built from a hex identifier carries a valid manufacturer code and the payload text's decoded bytes |
| `Make.MakeExamples` | src/main.rs:371-390 | `42` gives [0x42], `002109` gives [0x00,0x21,0x09], `7e` gives [0x7E], `4` fails the 2-digit rule, an empty argument fails |
| `Make.HexDigitsAreAscii` | src/main.rs:374 | a hex string's `len()` equals its character count |
| `Make.Utf8Length` | src/main.rs:374 | a string's byte length is at least its character count |
| `Hex.HexDecode` | src/main.rs:388 | decoding succeeds iff the text has even length and only hex digits; the result has half as many bytes |
| `Hex.DecodeEncode` | src/main.rs:388 | decoding undoes encoding |
| `Hex.HexEncode` | src/main.rs:129 | two characters per byte |
| `Hex.DecodeHead` | src/main.rs:388 | the first byte comes from the first two hex digits, high nibble first |
| `Numerals.CharValue` | src/main.rs:328 | the `char::to_digit` value of a character: 0–9 for digits, 10–35 for letters of either case, and 36 (never a digit) for anything else |
| `Numerals.IsDigit` | src/main.rs:328 | a character is a digit of a base iff its `to_digit` value is below the base |
| `Numerals.Numeral` | src/main.rs:179-182 | the decimal (or other base) text of n has no leading zero and reads back as n |
| `Numerals.LeadingZero` | src/main.rs:180 | a leading zero keeps a numeral's value |
| `Split.Pad3` | src/main.rs:180 | the result has width max(3, len), ends with the input and is padded with `'0'` only |
| `Split.ZerosKeepValue` | src/main.rs:180 | any number of leading zeros keeps a numeral's value |
| `Split.PadKeepsValue` | src/main.rs:180 | padding keeps the value |
| `Split.SplitFileName` | src/main.rs:179-183 | the stem, `-`, the 1-based message number padded to width 3 with `{:0>3}`, `.`, the extension; so the name starts with the stem and `-`, ends with `.` and the extension, and is at least 5 characters longer than both |
| `Split.SplitFileNameNumber` | src/main.rs:179-183 | the name of message i is stem, `-`, a numeral of at least 3 digits worth i+1, `.`, extension |
| `Split.SameNameSameNumber` | src/main.rs:179-183 | names with the same stem and extension agree in their numbers |
| `Split.SplitFileNamesDistinct` | src/main.rs:178-189 | different messages get different file names, so no output overwrites another |
| `Split.NamesDistinct` | src/main.rs:178-189 | files named in message order have pairwise different names |
| `Split.FirstSplitName` | src/main.rs:179-183 | message 0 of dump.syx goes to `dump-001.syx` |
| `Split.ThousandthSplitName` | src/main.rs:179-183 | message 999 of dump.syx goes to `dump-1000.syx`: the number outgrows the padding |
| `Split.SplitFiles` | src/main.rs:176-190 | nothing is written unless the count exceeds 1; then message i goes to the i-th name, in order, and all names differ |

## Left out

- The SysEx library: `Message::new`, `message_count`, `split_messages`, `read_file`,
  `Manufacturer`, `Manufacturer::new`, `find_manufacturer`, `Message::to_bytes` and
  `digest`. Its source is not part of this model. A parsed message is an input
  (`Messages.Parsed`). The name lookup is a function parameter. The message count and
  the split messages are inputs of `SplitFiles`.
- File I/O: reading the input file, creating and writing output files, and the
  timestamp-named output file of `receive`, which needs the system clock.
- The stdin `read_line` loop of `receive` and the process exits. One line is modelled.
  Splitting a line into whitespace tokens is done by the standard library, so the
  tokens are the input of `AssembleLine`.
- Command-line parsing and dispatch, and all printing: the report lines, the
  `{:06X}` section display and the MD5 digest display.
- The `identify` and `extract` handlers. They only call the library and print or
  write its results.
- `Sections.BuildSections`: requires a buffer length of at least 1. For an empty
  buffer, the source's `buffer.len() - 1` panics when overflow checks are on and wraps
  to `usize::MAX` otherwise. Neither outcome is modelled.
- `Split.SplitFiles`: the output directory is not modelled. The source passes the bare
  name `stem-NNN.ext` to `File::create`, so the files go into the current working
  directory, not the input file's directory.
- `Split.SplitFiles`: takes the file stem and extension as strings. The source gets
  them from `std::path`, and its `unwrap` calls panic when the path has no extension
  or is not valid UTF-8. That panic is not modelled.
- `Make.ResolveManufacturer`: `Manufacturer::new(...).unwrap()` is library code.
  Instead of modelling it, `AcceptedIdShape` proves that the bytes passed to it have
  the standard or extended shape. That shape admits 0x7E and 0x7F, the universal-message
  markers, so `make` accepts `7e` and `7f` as manufacturer identifiers. A message built
  this way starts F0 7E, which reads as a universal message.
- `Make.MakeMessage`: stops at the message value. Serialising it with
  `Message::to_bytes` and writing it to a file belong to the library and to I/O.
- `Make.ResolveManufacturer`: an empty argument makes `chars().nth(0).unwrap()` panic.
  The model returns the error `MissingManufacturer` for it.
- `Hex.HexDecode`: works on characters, where the `hex` crate works on UTF-8 bytes.
  Both fail on every string that is not pure ASCII, so success and result agree. The
  crate's distinction between its error kinds is not kept.
