/** The two functions of the `hex` crate that the `make` command uses:
    `hex::decode` and its inverse `hex::encode`. */
module Hex {
  import opened Common
  import opened Numerals

  /** `hex::decode`: pairs of hexadecimal digits (either case) to bytes,
      high nibble first; an odd length or a non-hexadecimal character fails. */
  function HexDecode(s: string): (r: Option<seq<Byte>>)
    ensures r.Some? <==> |s| % 2 == 0 && AllDigits(s, 16)
    ensures r.Some? ==> 2 * |r.value| == |s|
    decreases |s|
  {
    if s == [] then Some([])
    else if |s| == 1 || !IsDigit(s[0], 16) || !IsDigit(s[1], 16) then None
    else
      match HexDecode(s[2..])
      case None =>
        assert !AllDigits(s[2..], 16) || |s[2..]| % 2 != 0;
        None
      case Some(rest) =>
        assert forall i :: 2 <= i < |s| ==> s[i] == s[2..][i - 2];
        Some([CharValue(s[0]) * 16 + CharValue(s[1])] + rest)
  }

  /** `hex::encode`: each byte as two lower-case hexadecimal digits. */
  function HexEncode(bytes: seq<Byte>): (s: string)
    ensures |s| == 2 * |bytes|
  {
    if bytes == [] then []
    else [DigitChar(bytes[0] / 16), DigitChar(bytes[0] % 16)] + HexEncode(bytes[1..])
  }

  /** Decoding undoes encoding. */
  lemma {:induction false} DecodeEncode(bytes: seq<Byte>)
    ensures HexDecode(HexEncode(bytes)) == Some(bytes)
  {
    if bytes != [] {
      var s := HexEncode(bytes);
      assert s[2..] == HexEncode(bytes[1..]);
      DecodeEncode(bytes[1..]);
      assert bytes == [bytes[0]] + bytes[1..];
    }
  }

  /** The first byte of a decoded pair string comes from its first two digits. */
  lemma DecodeHead(s: string)
    requires HexDecode(s).Some? && |s| >= 2
    ensures HexDecode(s).value[0] == CharValue(s[0]) * 16 + CharValue(s[1])
  {
  }
}
