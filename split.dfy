/** The `split` command: each message of a multi-message file goes to its own
    numbered file, named from the input's stem and extension. */
module Split {
  import opened Common
  import opened Numerals

  /** `k` copies of '0'. */
  function Zeros(k: nat): (z: string)
    ensures |z| == k && forall i :: 0 <= i < k ==> z[i] == '0'
  {
    seq(k, _ => '0')
  }

  /** `{:0>3}`: left-pads with '0' to a width of at least three. */
  function Pad3(s: string): (r: string)
    ensures |r| == if |s| < 3 then 3 else |s|
    ensures r[|r| - |s|..] == s
    ensures forall i :: 0 <= i < |r| - |s| ==> r[i] == '0'
  {
    if |s| >= 3 then s else Zeros(3 - |s|) + s
  }

  /** The output name for message `i` (counted from 0): `stem-NNN.ext` with the
      1-based number zero-padded to three digits. */
  function SplitFileName(stem: string, ext: string, i: nat): (name: string)
    ensures |name| >= |stem| + |ext| + 5
    ensures name[..|stem| + 1] == stem + "-"
    ensures name[|name| - |ext| - 1..] == "." + ext
  {
    var head := stem + "-";
    var tail := "." + ext;
    var name := head + Pad3(Numeral(i + 1, 10)) + tail;
    assert name[..|head|] == head;
    assert name[|name| - |tail|..] == tail;
    name
  }

  /** A file the command writes. */
  datatype OutputFile = OutputFile(name: string, contents: seq<Byte>)

  /** Leading zeros do not change the value of a decimal numeral. */
  lemma {:induction false} ZerosKeepValue(k: nat, s: string)
    requires AllDigits(s, 10)
    ensures AllDigits(Zeros(k) + s, 10) && DigitsValue(Zeros(k) + s, 10) == DigitsValue(s, 10)
  {
    if k > 0 {
      ZerosKeepValue(k - 1, s);
      assert Zeros(k) + s == ['0'] + (Zeros(k - 1) + s);
      LeadingZero(Zeros(k - 1) + s, 10);
    } else {
      assert Zeros(k) + s == s;
    }
  }

  /** Padding keeps the value of a decimal numeral. */
  lemma PadKeepsValue(s: string)
    requires AllDigits(s, 10)
    ensures AllDigits(Pad3(s), 10) && DigitsValue(Pad3(s), 10) == DigitsValue(s, 10)
  {
    if |s| < 3 {
      ZerosKeepValue(3 - |s|, s);
    }
  }

  /** The name of message `i` is the stem, a dash, a decimal numeral of at least
      three digits worth i + 1, a dot and the extension. */
  lemma SplitFileNameNumber(stem: string, ext: string, i: nat)
    ensures var digits := Pad3(Numeral(i + 1, 10));
      SplitFileName(stem, ext, i) == stem + "-" + digits + "." + ext
      && |digits| >= 3 && AllDigits(digits, 10) && DigitsValue(digits, 10) == i + 1
  {
    PadKeepsValue(Numeral(i + 1, 10));
  }

  /** Two names with the same stem and extension agree in their numbers. */
  lemma SameNameSameNumber(stem: string, ext: string, p: string, q: string)
    requires stem + "-" + p + "." + ext == stem + "-" + q + "." + ext
    ensures p == q
  {
    var a, b := stem + "-" + p + "." + ext, stem + "-" + q + "." + ext;
    assert |p| == |q| by {
      assert |a| == |stem| + |p| + 2 + |ext|;
      assert |b| == |stem| + |q| + 2 + |ext|;
    }
    var lo := |stem| + 1;
    assert a[lo..lo + |p|] == p;
    assert b[lo..lo + |q|] == q;
  }

  /** Different messages get different names, so no output file overwrites another. */
  lemma SplitFileNamesDistinct(stem: string, ext: string, i: nat, j: nat)
    requires i != j
    ensures SplitFileName(stem, ext, i) != SplitFileName(stem, ext, j)
  {
    var p, q := Pad3(Numeral(i + 1, 10)), Pad3(Numeral(j + 1, 10));
    SplitFileNameNumber(stem, ext, i);
    SplitFileNameNumber(stem, ext, j);
    if stem + "-" + p + "." + ext == stem + "-" + q + "." + ext {
      SameNameSameNumber(stem, ext, p, q);
    }
  }

  /** Files named in message order have pairwise different names. */
  lemma NamesDistinct(stem: string, ext: string, files: seq<OutputFile>)
    requires forall k :: 0 <= k < |files| ==> files[k].name == SplitFileName(stem, ext, k)
    ensures forall i, j :: 0 <= i < j < |files| ==> files[i].name != files[j].name
  {
    forall i, j | 0 <= i < j < |files|
      ensures files[i].name != files[j].name
    {
      SplitFileNamesDistinct(stem, ext, i, j);
    }
  }

  /** Example: the first message of dump.syx is padded to three digits. */
  lemma FirstSplitName()
    ensures SplitFileName("dump", "syx", 0) == "dump-001.syx"
  {
    assert Numeral(1, 10) == "1";
    assert Zeros(2) == "00";
  }

  /** Example: the thousandth message's number outgrows the padding. */
  lemma ThousandthSplitName()
    ensures SplitFileName("dump", "syx", 999) == "dump-1000.syx"
  {
    assert Numeral(10, 10) == "10";
    assert Numeral(100, 10) == "100";
    assert Numeral(1000, 10) == "1000";
  }

  /** The writing loop of the split handler: nothing is written unless the file
      holds more than one message, and then message i goes to the i-th name. */
  method SplitFiles(stem: string, ext: string, count: nat, messages: seq<seq<Byte>>)
    returns (files: seq<OutputFile>)
    ensures count <= 1 ==> files == []
    ensures count > 1 ==> |files| == |messages|
    ensures count > 1 ==> forall i :: 0 <= i < |messages| ==>
      files[i] == OutputFile(SplitFileName(stem, ext, i), messages[i])
    ensures forall i, j :: 0 <= i < j < |files| ==> files[i].name != files[j].name
  {
    files := [];
    if count > 1 {
      for i := 0 to |messages|
        invariant |files| == i
        invariant forall k :: 0 <= k < i ==> files[k] == OutputFile(SplitFileName(stem, ext, k), messages[k])
      {
        var name := SplitFileName(stem, ext, i);
        var written := files;
        files := written + [OutputFile(name, messages[i])];
        assert forall k :: 0 <= k < i ==> files[k] == written[k];
      }
      NamesDistinct(stem, ext, files);
    }
  }
}
