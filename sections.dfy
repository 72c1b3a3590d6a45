/** The `sections` command: the labelled byte ranges of one message file. */
module Sections {
  import opened Common
  import Messages

  datatype SectionKind = Initiator | Manufacturer | Universal | Payload | Terminator

  /** A labelled byte range, `offset` counted from the start of the message. */
  datatype Section = Section(kind: SectionKind, name: string, offset: nat, length: nat)

  const InitiatorSection := Section(Initiator, "System Exclusive Initiator", 0, 1)

  function TerminatorSection(bufferLen: nat): Section
    requires bufferLen >= 1
  {
    Section(Terminator, "System Exclusive Terminator", bufferLen - 1, 1)
  }

  /** The sections between initiator and terminator that a parse result gets. */
  function Middle(parsed: Messages.Parsed): (s: seq<Section>)
    ensures s == [] <==> parsed.Err?
    ensures |s| > 0 ==> s[0].offset == 1 && Contiguous(s)
    ensures forall k :: 0 <= k < |s| ==> s[k].kind != Initiator && s[k].kind != Terminator
    ensures parsed.Ok? && parsed.value.ManufacturerSpecific? ==>
      TotalLength(s) == |parsed.value.manufacturer| + |parsed.value.payload|
    ensures parsed.Ok? && parsed.value.Universal? ==> TotalLength(s) == 3
  {
    match parsed
    case Ok(m) =>
      if m.ManufacturerSpecific? then
        var s := [Section(Manufacturer, "Manufacturer", 1, |m.manufacturer|),
                  Section(Payload, "Message Payload", 1 + |m.manufacturer|, |m.payload|)];
        assert TotalLength(s[1..]) == |m.payload| by { assert s[1..][1..] == []; }
        s
      else
        [Section(Universal, "Universal", 1, 3)]
    case Err(_) =>
      []
  }

  /** The section list of a message file of `bufferLen` bytes. */
  function Layout(parsed: Messages.Parsed, bufferLen: nat): (s: seq<Section>)
    requires bufferLen >= 1
    ensures 2 <= |s| <= 4
    ensures s[0] == InitiatorSection && s[|s| - 1] == TerminatorSection(bufferLen)
    ensures Contiguous(s[..|s| - 1])
  {
    [InitiatorSection] + Middle(parsed) + [TerminatorSection(bufferLen)]
  }

  /** The section-building part of the sections handler: a running offset and a
      growing list. */
  method BuildSections(parsed: Messages.Parsed, bufferLen: nat) returns (sections: seq<Section>)
    requires bufferLen >= 1
    ensures sections == Layout(parsed, bufferLen)
  {
    var offset := 0;
    sections := [Section(Initiator, "System Exclusive Initiator", offset, 1)];
    offset := offset + 1;
    match parsed {
      case Ok(m) =>
        if m.ManufacturerSpecific? {
          sections := sections + [Section(Manufacturer, "Manufacturer", offset, |m.manufacturer|)];
          offset := offset + |m.manufacturer|;
          sections := sections + [Section(Payload, "Message Payload", offset, |m.payload|)];
        } else {
          sections := sections + [Section(Universal, "Universal", offset, 3)];
        }
      case Err(_) =>
    }
    sections := sections + [Section(Terminator, "System Exclusive Terminator", bufferLen - 1, 1)];
  }

  /** Each section starts where the previous one ends. */
  ghost predicate Contiguous(sections: seq<Section>) {
    forall i :: 0 <= i < |sections| - 1 ==>
      sections[i + 1].offset == sections[i].offset + sections[i].length
  }

  /** The sections cover bytes 0 .. len-1 with no gap and no overlap. */
  ghost predicate Tiles(sections: seq<Section>, len: nat) {
    |sections| > 0 && sections[0].offset == 0 && Contiguous(sections)
    && sections[|sections| - 1].offset + sections[|sections| - 1].length == len
  }

  function TotalLength(sections: seq<Section>): nat {
    if sections == [] then 0 else sections[0].length + TotalLength(sections[1..])
  }

  /** Contiguous sections add up to the distance from the first offset to the end
      of the last section. */
  lemma {:induction false} ContiguousTotal(sections: seq<Section>)
    requires |sections| > 0 && Contiguous(sections)
    ensures sections[0].offset + TotalLength(sections)
            == sections[|sections| - 1].offset + sections[|sections| - 1].length
  {
    if |sections| > 1 {
      var rest := sections[1..];
      assert Contiguous(rest) by {
        forall i | 0 <= i < |rest| - 1
          ensures rest[i + 1].offset == rest[i].offset + rest[i].length
        {
          assert rest[i] == sections[i + 1] && rest[i + 1] == sections[i + 2];
        }
      }
      ContiguousTotal(rest);
    } else {
      assert sections[1..] == [];
    }
  }

  /** Sections that tile a buffer have lengths summing to its length. */
  lemma TilesTotal(sections: seq<Section>, len: nat)
    requires Tiles(sections, len)
    ensures TotalLength(sections) == len
  {
    ContiguousTotal(sections);
  }

  /** Every layout opens with the one-byte initiator at offset 0 and closes with the
      one-byte terminator at the buffer's last offset. */
  lemma LayoutEnds(parsed: Messages.Parsed, bufferLen: nat)
    requires bufferLen >= 1
    ensures var s := Layout(parsed, bufferLen);
      |s| >= 2
      && s[0] == Section(Initiator, "System Exclusive Initiator", 0, 1)
      && s[|s| - 1] == Section(Terminator, "System Exclusive Terminator", bufferLen - 1, 1)
  {
  }

  /** A manufacturer-specific message gets the manufacturer identifier at offset 1
      and the payload right after it; the four sections tile the buffer exactly when
      it is laid out as initiator, identifier, payload, terminator. */
  lemma ManufacturerLayout(code: seq<Byte>, payload: seq<Byte>, bufferLen: nat)
    requires bufferLen >= 1
    ensures var s := Layout(Ok(Messages.ManufacturerSpecific(code, payload)), bufferLen);
      |s| == 4
      && s[1] == Section(Manufacturer, "Manufacturer", 1, |code|)
      && s[2] == Section(Payload, "Message Payload", 1 + |code|, |payload|)
      && (Tiles(s, bufferLen) <==> bufferLen == 2 + |code| + |payload|)
      && (Tiles(s, bufferLen) ==> TotalLength(s) == bufferLen)
  {
    var s := Layout(Ok(Messages.ManufacturerSpecific(code, payload)), bufferLen);
    if bufferLen == 2 + |code| + |payload| {
      assert Contiguous(s) by {
        forall i | 0 <= i < |s| - 1
          ensures s[i + 1].offset == s[i].offset + s[i].length
        {
        }
      }
      TilesTotal(s, bufferLen);
    }
  }

  /** A universal message gets one 3-byte identifier section at offset 1 and no
      payload section, so its layout tiles only a 5-byte buffer. */
  lemma UniversalLayout(kind: Messages.UniversalKind, target: Byte, subId1: Byte, subId2: Byte,
                        payload: seq<Byte>, bufferLen: nat)
    requires bufferLen >= 1
    ensures var s := Layout(Ok(Messages.Universal(kind, target, subId1, subId2, payload)), bufferLen);
      |s| == 3
      && s[1] == Section(Universal, "Universal", 1, 3)
      && (forall i :: 0 <= i < |s| ==> s[i].kind != Payload)
      && TotalLength(s) == 5
      && (Tiles(s, bufferLen) <==> bufferLen == 5)
  {
    var s := Layout(Ok(Messages.Universal(kind, target, subId1, subId2, payload)), bufferLen);
    assert s[1..][1..][1..] == [];
    assert TotalLength(s[1..][1..]) == 1;
    assert TotalLength(s) == 1 + 3 + 1;
    if bufferLen == 5 {
      assert Contiguous(s) by {
        forall i | 0 <= i < |s| - 1
          ensures s[i + 1].offset == s[i].offset + s[i].length
        {
        }
      }
    }
  }

  /** A message that does not parse gets only initiator and terminator, which tile
      only a 2-byte buffer. */
  lemma ErrorLayout(e: Messages.ParseError, bufferLen: nat)
    requires bufferLen >= 1
    ensures var s := Layout(Err(e), bufferLen);
      |s| == 2 && (Tiles(s, bufferLen) <==> bufferLen == 2)
  {
  }
}
