/** One line of the `receive` command: the whitespace-separated tokens of a line in
    the ReceiveMIDI text format become one framed System Exclusive buffer. */
module Receive {
  import opened Common
  import opened Numerals

  /** The first token of a line that carries System Exclusive data. */
  const SysExMarker: string := "system-exclusive"

  /** The base of the byte tokens, chosen by the second token. */
  function BaseOf(token: string): (base: Radix)
    ensures base == 16 || base == 10
    ensures base == 16 <==> token == "hex"
  {
    if token == "hex" then 16 else 10
  }

  /** `u8::from_str_radix(token, base)`: an optional '+', then one or more digits
      of the base whose value is at most 255. A '-' is never accepted for `u8`. */
  function ParseByte(token: string, base: Radix): (r: Option<Byte>)
    ensures r.Some? ==> token != [] && token != "+"
  {
    var digits := if |token| > 0 && token[0] == '+' then token[1..] else token;
    if digits != [] && AllDigits(digits, base) && DigitsValue(digits, base) <= 0xFF
    then Some(DigitsValue(digits, base))
    else None
  }

  /** The bytes of the tokens that parse, in token order; the others are skipped. */
  function Decoded(tokens: seq<string>, base: Radix): (bytes: seq<Byte>)
    ensures |bytes| <= |tokens|
  {
    if tokens == [] then []
    else Single(tokens[0], base) + Decoded(tokens[1..], base)
  }

  /** What one token contributes: its byte, or nothing when it does not parse. */
  function Single(token: string, base: Radix): seq<Byte> {
    match ParseByte(token, base)
    case Some(b) => [b]
    case None => []
  }

  /** The positions of the tokens that parse, in increasing order. */
  function ValidPositions(tokens: seq<string>, base: Radix): (ps: seq<nat>)
    ensures forall k :: 0 <= k < |ps| ==> ps[k] < |tokens|
  {
    if tokens == [] then []
    else
      var n := |tokens| - 1;
      ValidPositions(tokens[..n], base) + (if ParseByte(tokens[n], base).Some? then [n] else [])
  }

  /** The buffer one line yields: present only for a System Exclusive line with at
      least one token after the base, framed with 0xF0 and 0xF7. */
  function Assembled(parts: seq<string>): (r: Option<seq<Byte>>)
    ensures r.Some? <==> |parts| >= 3 && parts[0] == SysExMarker
    ensures r.Some? ==> 2 <= |r.value| <= |parts|
    ensures r.Some? ==> r.value[0] == 0xF0 && r.value[|r.value| - 1] == 0xF7
  {
    if |parts| >= 3 && parts[0] == SysExMarker
    then Some([0xF0] + Decoded(parts[2..], BaseOf(parts[1])) + [0xF7])
    else None
  }

  /** The token loop of the receive handler for one line. */
  method AssembleLine(parts: seq<string>) returns (data: Option<seq<Byte>>)
    ensures data == Assembled(parts)
  {
    // at least the marker, the base and one byte token
    if |parts| < 3 {
      return None;
    }
    if parts[0] != SysExMarker {
      return None;
    }
    var base := BaseOf(parts[1]);
    var bytes: seq<Byte> := [];
    for i := 2 to |parts|
      invariant bytes == Decoded(parts[2..i], base)
    {
      assert parts[2..i + 1] == parts[2..i] + [parts[i]];
      DecodedSnoc(parts[2..i], parts[i], base);
      match ParseByte(parts[i], base) {
        case Some(b) => bytes := bytes + [b];
        case None =>
      }
    }
    assert parts[2..|parts|] == parts[2..];
    bytes := [0xF0] + bytes;
    bytes := bytes + [0xF7];
    return Some(bytes);
  }

  /** Decoding distributes over concatenation of token sequences. */
  lemma {:induction false} DecodedAppend(a: seq<string>, b: seq<string>, base: Radix)
    ensures Decoded(a + b, base) == Decoded(a, base) + Decoded(b, base)
  {
    if a == [] {
      assert a + b == b;
    } else {
      assert (a + b)[1..] == a[1..] + b;
      DecodedAppend(a[1..], b, base);
    }
  }

  /** Decoding one more token appends what that token contributes. */
  lemma DecodedSnoc(tokens: seq<string>, t: string, base: Radix)
    ensures Decoded(tokens + [t], base) == Decoded(tokens, base) + Single(t, base)
  {
    DecodedAppend(tokens, [t], base);
    assert [t][1..] == [];
  }

  /** One decoded byte per parsing token. */
  lemma {:induction false} DecodedCount(tokens: seq<string>, base: Radix)
    ensures |Decoded(tokens, base)| == |ValidPositions(tokens, base)|
  {
    if tokens != [] {
      var n := |tokens| - 1;
      DecodedCount(tokens[..n], base);
      assert tokens == tokens[..n] + [tokens[n]];
      DecodedSnoc(tokens[..n], tokens[n], base);
    }
  }

  /** The k-th decoded byte is the value of the k-th parsing token. */
  lemma {:induction false} DecodedAt(tokens: seq<string>, base: Radix, k: nat)
    requires k < |ValidPositions(tokens, base)|
    ensures |Decoded(tokens, base)| == |ValidPositions(tokens, base)|
    ensures ParseByte(tokens[ValidPositions(tokens, base)[k]], base) == Some(Decoded(tokens, base)[k])
  {
    DecodedCount(tokens, base);
    var n := |tokens| - 1;
    var init := tokens[..n];
    assert tokens == init + [tokens[n]];
    DecodedSnoc(init, tokens[n], base);
    DecodedCount(init, base);
    var ps0 := ValidPositions(init, base);
    if k < |ps0| {
      DecodedAt(init, base, k);
      assert tokens[ps0[k]] == init[ps0[k]];
    }
  }

  predicate Increasing(ps: seq<nat>) {
    forall k, l :: 0 <= k < l < |ps| ==> ps[k] < ps[l]
  }

  /** The positions of the parsing tokens increase. */
  lemma {:induction false} PositionsIncrease(tokens: seq<string>, base: Radix)
    ensures Increasing(ValidPositions(tokens, base))
  {
    if tokens != [] {
      var n := |tokens| - 1;
      PositionsIncrease(tokens[..n], base);
      var ps0, ps := ValidPositions(tokens[..n], base), ValidPositions(tokens, base);
      assert ps == ps0 + (if ParseByte(tokens[n], base).Some? then [n] else []);
      forall k, l | 0 <= k < l < |ps|
        ensures ps[k] < ps[l]
      {
        assert ps[k] == ps0[k] && ps0[k] < |tokens[..n]| == n;
        if l < |ps0| {
          assert ps[l] == ps0[l] && ps0[k] < ps0[l];
        } else {
          assert ps[l] == n;
        }
      }
    }
  }

  /** Every parsing token has its position listed. */
  lemma {:induction false} PositionsComplete(tokens: seq<string>, base: Radix, i: nat)
    requires i < |tokens| && ParseByte(tokens[i], base).Some?
    ensures i in ValidPositions(tokens, base)
  {
    var n := |tokens| - 1;
    if i < n {
      assert tokens[..n][i] == tokens[i];
      PositionsComplete(tokens[..n], base, i);
    }
  }

  /** The decoded bytes are exactly the values of the parsing tokens, one per such
      token and in their order: byte k comes from the k-th parsing token, the
      positions increase, and every parsing token has its position listed. */
  lemma DecodedPositions(tokens: seq<string>, base: Radix)
    ensures var ps, bytes := ValidPositions(tokens, base), Decoded(tokens, base);
      |bytes| == |ps|
      && (forall k :: 0 <= k < |ps| ==> ps[k] < |tokens| && ParseByte(tokens[ps[k]], base) == Some(bytes[k]))
      && Increasing(ps)
      && (forall i :: 0 <= i < |tokens| && ParseByte(tokens[i], base).Some? ==> i in ps)
  {
    DecodedCount(tokens, base);
    PositionsIncrease(tokens, base);
    forall k | 0 <= k < |ValidPositions(tokens, base)|
      ensures ParseByte(tokens[ValidPositions(tokens, base)[k]], base) == Some(Decoded(tokens, base)[k])
    {
      DecodedAt(tokens, base, k);
    }
    forall i | 0 <= i < |tokens| && ParseByte(tokens[i], base).Some?
      ensures i in ValidPositions(tokens, base)
    {
      PositionsComplete(tokens, base, i);
    }
  }

  /** A line yields a buffer exactly when it has three tokens or more and the first
      is the System Exclusive marker; the buffer is 0xF0, the byte of each parsing
      token after the base in token order, then 0xF7, so its length is the number of
      parsing tokens plus two. */
  lemma AssembledFraming(parts: seq<string>)
    ensures Assembled(parts).Some? <==> |parts| >= 3 && parts[0] == SysExMarker
    ensures Assembled(parts).Some? ==>
      var data, base := Assembled(parts).value, BaseOf(parts[1]);
      var ps := ValidPositions(parts[2..], base);
      |data| == |ps| + 2 && data[0] == 0xF0 && data[|data| - 1] == 0xF7
      && forall k :: 0 <= k < |ps| ==> ParseByte(parts[2 + ps[k]], base) == Some(data[k + 1])
  {
    if |parts| >= 3 && parts[0] == SysExMarker {
      var base, tokens := BaseOf(parts[1]), parts[2..];
      Framed(tokens, base);
      var ps := ValidPositions(tokens, base);
      forall k | 0 <= k < |ps|
        ensures parts[2 + ps[k]] == tokens[ps[k]]
      {
      }
    }
  }

  /** The framed form of a token sequence, by position. */
  lemma Framed(tokens: seq<string>, base: Radix)
    ensures var data, ps := [0xF0] + Decoded(tokens, base) + [0xF7], ValidPositions(tokens, base);
      |data| == |ps| + 2 && data[0] == 0xF0 && data[|data| - 1] == 0xF7
      && forall k :: 0 <= k < |ps| ==> ParseByte(tokens[ps[k]], base) == Some(data[k + 1])
  {
    DecodedCount(tokens, base);
    var bytes := Decoded(tokens, base);
    var data := [0xF0] + bytes + [0xF7];
    var ps := ValidPositions(tokens, base);
    forall k | 0 <= k < |ps|
      ensures ParseByte(tokens[ps[k]], base) == Some(data[k + 1])
    {
      DecodedAt(tokens, base, k);
      assert data[k + 1] == bytes[k];
    }
  }

  /** `u8::from_str_radix` reads back what `format!` writes for every byte, with or
      without a leading '+'. */
  lemma ParseNumeral(b: Byte, base: Radix)
    ensures ParseByte(Numeral(b, base), base) == Some(b)
    ensures ParseByte("+" + Numeral(b, base), base) == Some(b)
  {
  }

  /** A token whose digits are worth more than 255 does not parse. */
  lemma ParseRejectsOverflow(token: string, base: Radix)
    requires token != [] && AllDigits(token, base) && DigitsValue(token, base) > 0xFF
    ensures ParseByte(token, base) == None
  {
  }

  /** The base is hexadecimal only for the exact token "hex": "HEX" reads decimal,
      so "ff" is skipped there and "255" is 0xFF. */
  lemma BaseExamples()
    ensures BaseOf("hex") == 16 && BaseOf("dec") == 10 && BaseOf("HEX") == 10
    ensures Assembled([SysExMarker, "HEX", "ff", "255"]) == Some([0xF0, 0xFF, 0xF7])
  {
    assert ParseByte("ff", 10) == None by {
      assert !IsDigit("ff"[0], 10);
    }
    assert ParseByte("255", 10) == Some(255) by {
      assert "255"[..2] == "25" && "25"[..1] == "2" && "2"[..0] == [];
    }
    var tokens := [SysExMarker, "HEX", "ff", "255"][2..];
    assert tokens == ["ff", "255"] && tokens[1..] == ["255"] && tokens[1..][1..] == [];
    assert Single("ff", 10) == [] && Single("255", 10) == [0xFF];
    assert Decoded(tokens[1..], 10) == [0xFF];
    assert Decoded(tokens, 10) == [0xFF];
    assert [0xF0] + [0xFF] + [0xF7] == [0xF0, 0xFF, 0xF7];
  }

  /** The tolerant decoding of a noisy line: "ZZ" is skipped, the rest are kept. */
  lemma ReceiveExample()
    ensures Assembled([SysExMarker, "hex", "30", "ZZ", "28"]) == Some([0xF0, 0x30, 0x28, 0xF7])
    ensures Assembled([SysExMarker, "hex", "ZZ"]) == Some([0xF0, 0xF7])
    ensures Assembled([SysExMarker, "hex"]) == None
    ensures Assembled(["note-on", "hex", "30"]) == None
  {
    assert ParseByte("30", 16) == Some(0x30) by {
      assert "30"[..1] == "3" && "3"[..0] == [];
    }
    assert ParseByte("28", 16) == Some(0x28) by {
      assert "28"[..1] == "2" && "2"[..0] == [];
    }
    assert ParseByte("ZZ", 16) == None by {
      assert !IsDigit("ZZ"[0], 16);
    }
    var noisy := [SysExMarker, "hex", "30", "ZZ", "28"][2..];
    assert noisy == ["30", "ZZ", "28"] && noisy[1..] == ["ZZ", "28"];
    assert noisy[1..][1..] == ["28"] && noisy[1..][1..][1..] == [];
    assert Single("30", 16) == [0x30] && Single("ZZ", 16) == [] && Single("28", 16) == [0x28];
    assert Decoded(noisy[1..][1..], 16) == [0x28];
    assert Decoded(noisy[1..], 16) == [0x28];
    assert Decoded(noisy, 16) == [0x30, 0x28];
    assert BaseOf("hex") == 16;
    assert [0xF0] + [0x30, 0x28] + [0xF7] == [0xF0, 0x30, 0x28, 0xF7];
    var bad := [SysExMarker, "hex", "ZZ"][2..];
    assert bad == ["ZZ"] && bad[1..] == [];
    assert Decoded(bad, 16) == [];
    assert [0xF0] + [] + [0xF7] == [0xF0, 0xF7];
  }
}
