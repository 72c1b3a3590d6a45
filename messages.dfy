/** The parsed System Exclusive message that the command handlers receive from the
    SysEx library. Only its shape is modelled: how a buffer is parsed into it is
    the library's business. */
module Messages {
  import opened Common

  datatype UniversalKind = NonRealTime | RealTime

  /** A parsed message; the 0xF0 / 0xF7 framing bytes are not stored. */
  datatype Message =
    | ManufacturerSpecific(manufacturer: seq<Byte>, payload: seq<Byte>)
    | Universal(kind: UniversalKind, target: Byte, subId1: Byte, subId2: Byte, payload: seq<Byte>)

  /** The library's parse error; the commands only print it. */
  datatype ParseError = InvalidMessage

  type Parsed = Result<Message, ParseError>
}
