/** The `make` command: how the manufacturer argument is read (a hexadecimal
    identifier or a name to look up), and the message it builds with the payload. */
module Make {
  import opened Common
  import opened Numerals
  import opened Hex
  import Messages

  datatype MakeError =
    | MissingManufacturer  // an empty argument has no first character to inspect
    | ExtendedIdLength     // an identifier starting "00" that is not six bytes long
    | StandardIdLength     // any other identifier that is not two bytes long
    | InvalidId            // the identifier is not a hexadecimal string
    | UnknownManufacturer  // the name lookup found nothing
    | InvalidPayload       // the payload is not a hexadecimal string

  /** The number of bytes a character takes in UTF-8. */
  function Utf8Width(c: char): nat {
    if c as int < 0x80 then 1
    else if c as int < 0x800 then 2
    else if c as int < 0x10000 then 3
    else 4
  }

  /** `String::len`: the length of a string in UTF-8 bytes. */
  function Utf8Length(s: string): (n: nat)
    ensures n >= |s|
  {
    if s == [] then 0 else Utf8Width(s[0]) + Utf8Length(s[1..])
  }

  /** A first character '0'..'7' means a hexadecimal identifier. */
  predicate SelectsHexId(c: char) {
    '0' <= c <= '7'
  }

  predicate HasExtendedPrefix(arg: string) {
    |arg| >= 2 && arg[..2] == "00"
  }

  /** The hexadecimal-identifier path: the length rule, then `hex::decode`. */
  function HexId(arg: string): (r: Result<seq<Byte>, MakeError>)
    ensures r.Ok? ==> HexDecode(arg) == Some(r.value)
    ensures r.Ok? ==> if HasExtendedPrefix(arg) then |r.value| == 3 && r.value[0] == 0 else |r.value| == 1
    ensures r == Err(ExtendedIdLength) <==> HasExtendedPrefix(arg) && Utf8Length(arg) != 6
    ensures r == Err(StandardIdLength) <==> !HasExtendedPrefix(arg) && Utf8Length(arg) != 2
    ensures r.Err? ==> r.error in {ExtendedIdLength, StandardIdLength, InvalidId}
  {
    if HasExtendedPrefix(arg) && Utf8Length(arg) != 6 then Err(ExtendedIdLength)
    else if !HasExtendedPrefix(arg) && Utf8Length(arg) != 2 then Err(StandardIdLength)
    else
      match HexDecode(arg)
      case Some(code) => HexDigitsAreAscii(arg); DecodeHead(arg); Ok(code)
      case None => Err(InvalidId)
  }

  /** The manufacturer code named by the argument; `find` is the library's name
      lookup, giving the code of the manufacturer it finds. */
  function ResolveManufacturer(arg: string, find: string -> Option<seq<Byte>>): (r: Result<seq<Byte>, MakeError>)
    ensures arg == [] <==> r == Err(MissingManufacturer)
    ensures arg != [] && SelectsHexId(arg[0]) && r.Ok? ==>
      HexDecode(arg) == Some(r.value) && (|r.value| == 1 || |r.value| == 3)
    ensures arg != [] && !SelectsHexId(arg[0]) ==>
      (r.Ok? <==> find(arg).Some?) && (r.Ok? ==> r.value == find(arg).value)
    ensures r.Err? ==> r.error != InvalidPayload
  {
    if arg == [] then Err(MissingManufacturer)
    else if SelectsHexId(arg[0]) then HexId(arg)
    else
      match find(arg)
      case Some(code) => Ok(code)
      case None => Err(UnknownManufacturer)
  }

  /** The message the `make` command builds before it serialises and writes it. */
  function MakeMessage(arg: string, payload: string, find: string -> Option<seq<Byte>>): (r: Result<Messages.Message, MakeError>)
    ensures r.Ok? <==> ResolveManufacturer(arg, find).Ok? && HexDecode(payload).Some?
    ensures r.Ok? ==>
              && r.value.ManufacturerSpecific?
              && r.value.manufacturer == ResolveManufacturer(arg, find).value
              && HexDecode(payload) == Some(r.value.payload)
    ensures ResolveManufacturer(arg, find).Err? ==> r == Err(ResolveManufacturer(arg, find).error)
    ensures r == Err(InvalidPayload) <==> ResolveManufacturer(arg, find).Ok? && HexDecode(payload).None?
  {
    match ResolveManufacturer(arg, find)
    case Err(e) => Err(e)
    case Ok(code) =>
      match HexDecode(payload)
      case Some(bytes) => Ok(Messages.ManufacturerSpecific(code, bytes))
      case None => Err(InvalidPayload)
  }

  /** The byte shapes of a valid manufacturer code: one byte 0x01..0x7F, or three
      bytes of which the first is 0x00. */
  predicate IsManufacturerCode(code: seq<Byte>) {
    (|code| == 1 && 0x01 <= code[0] <= 0x7F) || (|code| == 3 && code[0] == 0x00)
  }

  /** Hexadecimal text is ASCII, so its UTF-8 length is its character count. */
  lemma {:induction false} HexDigitsAreAscii(s: string)
    requires AllDigits(s, 16)
    ensures Utf8Length(s) == |s|
  {
    if s != [] {
      assert IsDigit(s[0], 16);
      HexDigitsAreAscii(s[1..]);
    }
  }

  /** The first character alone chooses the path: '0'..'7' never consults the name
      lookup, anything else always does. */
  lemma RouteByFirstChar(arg: string, find: string -> Option<seq<Byte>>, other: string -> Option<seq<Byte>>)
    requires arg != []
    ensures SelectsHexId(arg[0]) ==> ResolveManufacturer(arg, find) == ResolveManufacturer(arg, other)
    ensures !SelectsHexId(arg[0]) ==>
      ResolveManufacturer(arg, find) == if find(arg).Some? then Ok(find(arg).value) else Err(UnknownManufacturer)
  {
  }

  /** The length rules of the hexadecimal path, counted in UTF-8 bytes: six for an
      identifier starting "00", two for any other. */
  lemma IdLengthRules(arg: string, find: string -> Option<seq<Byte>>)
    requires arg != [] && SelectsHexId(arg[0])
    ensures HasExtendedPrefix(arg) && Utf8Length(arg) != 6 ==> ResolveManufacturer(arg, find) == Err(ExtendedIdLength)
    ensures !HasExtendedPrefix(arg) && Utf8Length(arg) != 2 ==> ResolveManufacturer(arg, find) == Err(StandardIdLength)
  {
  }

  /** An accepted hexadecimal identifier always has a valid shape: two characters
      give one byte in 0x01..0x7F ("00" is refused), six give three bytes led by
      0x00. The one-byte range includes 0x7E and 0x7F, the markers of universal
      messages: an identifier "7e" or "7f" is accepted as a manufacturer code. */
  lemma AcceptedIdShape(arg: string, find: string -> Option<seq<Byte>>)
    requires arg != [] && SelectsHexId(arg[0])
    requires ResolveManufacturer(arg, find).Ok?
    ensures var code := ResolveManufacturer(arg, find).value;
      IsManufacturerCode(code)
      && (|arg| == 2 ==> |code| == 1 && 0x01 <= code[0] <= 0x7F)
      && (|arg| == 6 ==> |code| == 3 && code[0] == 0x00)
      && HexDecode(arg) == Some(code)
  {
    var code := HexDecode(arg).value;
    HexDigitsAreAscii(arg);
    DecodeHead(arg);
    assert CharValue(arg[0]) <= 7;
    if !HasExtendedPrefix(arg) {
      assert arg[..2] == [arg[0], arg[1]];
      assert arg[0] != '0' || arg[1] != '0';
      assert CharValue(arg[0]) > 0 || CharValue(arg[1]) > 0;
    } else {
      assert arg[0] == '0' && arg[1] == '0';
    }
  }

  /** The refused "00": an identifier starting "00" must be six long. */
  lemma DoubleZeroRefused(find: string -> Option<seq<Byte>>)
    ensures ResolveManufacturer("00", find) == Err(ExtendedIdLength)
  {
  }

  /** Conversely, every valid code written in hexadecimal is accepted as itself, so
      the hexadecimal path reaches exactly the valid codes. */
  lemma ValidCodeAccepted(code: seq<Byte>, find: string -> Option<seq<Byte>>)
    requires IsManufacturerCode(code)
    ensures ResolveManufacturer(HexEncode(code), find) == Ok(code)
  {
    var s := HexEncode(code);
    DecodeEncode(code);
    HexDigitsAreAscii(s);
    assert s[0] == DigitChar(code[0] / 16) && s[1] == DigitChar(code[0] % 16);
    if |code| == 1 {
      assert code[0] / 16 <= 7;
    } else {
      assert s[..2] == "00";
    }
  }

  /** Writing a valid code and any payload in hexadecimal and passing both to
      `make` builds the manufacturer-specific message of exactly that code and
      payload. */
  lemma MakeRoundTrip(code: seq<Byte>, payload: seq<Byte>, find: string -> Option<seq<Byte>>)
    requires IsManufacturerCode(code)
    ensures MakeMessage(HexEncode(code), HexEncode(payload), find)
            == Ok(Messages.ManufacturerSpecific(code, payload))
  {
    ValidCodeAccepted(code, find);
    DecodeEncode(payload);
  }

  /** A message built from a hexadecimal identifier carries a valid manufacturer
      code and the bytes the payload text decodes to. */
  lemma MakeHexPathShape(arg: string, payload: string, find: string -> Option<seq<Byte>>)
    requires arg != [] && SelectsHexId(arg[0])
    requires MakeMessage(arg, payload, find).Ok?
    ensures MakeMessage(arg, payload, find).value.ManufacturerSpecific?
    ensures IsManufacturerCode(MakeMessage(arg, payload, find).value.manufacturer)
    ensures HexDecode(payload) == Some(MakeMessage(arg, payload, find).value.payload)
  {
    AcceptedIdShape(arg, find);
  }

  /** Examples: a standard and an extended identifier, the universal marker 0x7E
      accepted as a code, an identifier that is too short and an empty argument. */
  lemma MakeExamples(find: string -> Option<seq<Byte>>)
    ensures ResolveManufacturer("42", find) == Ok([0x42])
    ensures ResolveManufacturer("002109", find) == Ok([0x00, 0x21, 0x09])
    ensures ResolveManufacturer("7e", find) == Ok([0x7E])
    ensures ResolveManufacturer("4", find) == Err(StandardIdLength)
    ensures ResolveManufacturer("", find) == Err(MissingManufacturer)
  {
    DecodeEncode([0x7E]);
    assert HexEncode([0x7E]) == "7e";
    DecodeEncode([0x42]);
    assert HexEncode([0x42]) == "42";
    DecodeEncode([0x00, 0x21, 0x09]);
    assert HexEncode([0x00, 0x21, 0x09]) == "002109";
    assert "002109"[..2] == "00";
    HexDigitsAreAscii("002109");
  }
}
