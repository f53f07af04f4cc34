/** Worked examples of the builder and of the framing on the inputs the form is
    typically given. */
module Scenarios {
  import opened Wrappers
  import opened Text
  import opened Builder
  import opened Packet

  /** The operand texts used below read as the integers they spell. */
  lemma Numeral(s: string, n: nat)
    requires s in {"0", "1", "5", "10", "300"}
    requires n == if s == "0" then 0 else if s == "1" then 1 else if s == "5" then 5 else if s == "10" then 10 else 300
    ensures IsDecimal(s) && ParseDecimal(s) == Some(n)
  {
    assert IsDecimal(s);
    if |s| == 1 {
      assert s[..0] == [];
    } else if |s| == 2 {
      assert s[..1] == "1" && s[..1][..0] == [];
    } else {
      assert s[..2] == "30" && s[..2][..1] == "3" && s[..2][..1][..0] == [];
    }
    assert DecimalValue(s) == n;
    ParseUnsigned(s);
  }

  lemma AddTemplateFiveTen()
    ensures AddTemplate[14 := 5][15 := 10] == [0x0E, 0x2F, 0x5E, 0x60, 0, 0, 0, 0, 0, 0, 0, 0, 0, 0, 5, 10]
  {
    var t := AddTemplate[14 := 5][15 := 10];
    assert forall i :: 0 <= i < 16 ==> t[i] == [0x0E, 0x2F, 0x5E, 0x60, 0, 0, 0, 0, 0, 0, 0, 0, 0, 0, 5, 10][i];
  }

  /** "Suma" with operands 5 and 10 fills the last two slots of the addition template. */
  lemma AddFiveTen()
    ensures Instructions("Suma", "5", "10", []) ==
      Ok([0x0E, 0x2F, 0x5E, 0x60, 0, 0, 0, 0, 0, 0, 0, 0, 0, 0, 5, 10])
  {
    assert FillOperands(AddTemplate, "5", "10") == Ok(AddTemplate[14 := 5][15 := 10]) by {
      Numeral("5", 5);
      Numeral("10", 10);
    }
    AddTemplateFiveTen();
  }

  /** The subtraction template with 5 and 10 in its operand slots, written out. */
  lemma SubTemplateFiveTen()
    ensures SubTemplate[14 := 5][15 := 10] == [0x0E, 0x3F, 0x5E, 0x60, 0, 0, 0, 0, 0, 0, 0, 0, 0, 0, 5, 10]
  {
    var t := SubTemplate[14 := 5][15 := 10];
    assert forall i :: 0 <= i < 16 ==> t[i] == [0x0E, 0x3F, 0x5E, 0x60, 0, 0, 0, 0, 0, 0, 0, 0, 0, 0, 5, 10][i];
  }

  /** "Resta" with operands 5 and 10 fills the last two slots of the subtraction template. */
  lemma SubFiveTen()
    ensures Instructions("Resta", "5", "10", []) ==
      Ok([0x0E, 0x3F, 0x5E, 0x60, 0, 0, 0, 0, 0, 0, 0, 0, 0, 0, 5, 10])
  {
    assert FillOperands(SubTemplate, "5", "10") == Ok(SubTemplate[14 := 5][15 := 10]) by {
      Numeral("5", 5);
      Numeral("10", 10);
    }
    SubTemplateFiveTen();
  }

  /** An operand above 255 is out of range. */
  lemma OperandTooLarge()
    ensures Instructions("Suma", "300", "0", []) == Err(OperandsOutOfRange)
  {
    Numeral("300", 300);
    Numeral("0", 0);
  }

  /** A negative operand is read as an integer, then found out of range. */
  lemma OperandNegative()
    ensures Instructions("Resta", "-1", "0", []) == Err(OperandsOutOfRange)
  {
    Numeral("1", 1);
    ParseNegative("1");
    assert "-" + "1" == "-1";
    Numeral("0", 0);
  }

  lemma NotANumber(s: string)
    requires s == "abc"
    ensures ParseDecimal(s) == None
  {
    assert !IsSpace(s[0]) && !IsSpace(s[2]);
    assert Strip(s) == s;
    assert !IsDecimalDigit(s[0]) && s[0] != '-' && s[0] != '+';
  }

  /** Text that is not an integer is reported as invalid even when the other
      operand is out of range: both are read before either is range-checked. */
  lemma OperandNotInteger()
    ensures Instructions("Suma", "300", "abc", []) == Err(InvalidOperands)
  {
    Numeral("300", 300);
    NotANumber("abc");
  }

  /** A custom sample, one entry with its `0x` prefix. */
  const SampleEntries: seq<string> :=
    ["0x0E", "2F", "5E", "60", "40", "0", "0", "0", "0", "0", "0", "0", "0", "0", "4", "1"]

  const SampleBytes: seq<Byte> :=
    [0x0E, 0x2F, 0x5E, 0x60, 0x40, 0, 0, 0, 0, 0, 0, 0, 0, 0, 4, 1]

  lemma PrefixedEntry(e: string)
    requires e == "0x0E"
    ensures ParseEntry(e) == Some(0x0E)
  {
    assert !IsSpace(e[0]) && !IsSpace(e[3]) && Strip(e) == e && HasHexPrefix(e);
    assert e[2..] == "0E";
    TwoDigitHex(e[2..]);
  }

  lemma TwoDigitEntry(e: string, b: Byte)
    requires |e| == 2 && IsHexDigit(e[0]) && IsHexDigit(e[1]) && e[1] != 'x'
    requires b == HexDigitValue(e[0]) * 16 + HexDigitValue(e[1])
    ensures ParseEntry(e) == Some(b)
  {
    assert !IsSpace(e[0]) && !IsSpace(e[1]) && Strip(e) == e && !HasHexPrefix(e);
    TwoDigitHex(e);
  }

  lemma SampleEntry(i: nat)
    requires i < |SampleEntries|
    ensures ParseEntry(SampleEntries[i]) == Some(SampleBytes[i])
  {
    var e, b := SampleEntries[i], SampleBytes[i];
    if i == 0 {
      PrefixedEntry(e);
    } else if i < 5 {
      TwoDigitEntry(e, b);
    } else {
      assert e == [e[0]];
      SingleDigitEntry(e[0]);
    }
  }

  lemma SampleEntriesParse(n: nat)
    requires n <= |SampleEntries|
    ensures ParseEach(ParseEntry, SampleEntries[..n]) == Ok(SampleBytes[..n])
  {
    forall i | 0 <= i < n ensures ParseEntry(SampleEntries[..n][i]) == Some(SampleBytes[..n][i]) {
      SampleEntry(i);
    }
    ParseEachOf(ParseEntry, SampleEntries[..n], SampleBytes[..n]);
  }

  /** The sample entries build the sample bytes. */
  lemma CustomSample()
    ensures Instructions("Personalizada", "", "", SampleEntries) == Ok(SampleBytes)
  {
    SampleEntriesParse(16);
    assert SampleEntries[..16] == SampleEntries && SampleBytes[..16] == SampleBytes;
  }

  /** The sample's 0x40 sets the flag. */
  lemma SampleFlag()
    ensures Flag(SampleBytes) == FlagSet
  {
    var b := SampleBytes;
    assert b[4] == 0x40;
    FlagSpec(b);
  }

  /** So the sample's frame ends in 0x01, 0xFF. */
  lemma SampleFrame()
    ensures Frame(SampleBytes) ==
      [0xAA, 0x0E, 0x2F, 0x5E, 0x60, 0x40, 0, 0, 0, 0, 0, 0, 0, 0, 0, 4, 1, 0x01, 0xFF]
  {
    SampleFlag();
    SampleFrameBytes();
  }

  lemma SampleFrameBytes()
    ensures [StartOfFrame] + SampleBytes + [FlagSet] + [EndOfFrame] ==
      [0xAA, 0x0E, 0x2F, 0x5E, 0x60, 0x40, 0, 0, 0, 0, 0, 0, 0, 0, 0, 4, 1, 0x01, 0xFF]
  {
    var f := [StartOfFrame] + SampleBytes + [FlagSet] + [EndOfFrame];
    var expected := [0xAA, 0x0E, 0x2F, 0x5E, 0x60, 0x40, 0, 0, 0, 0, 0, 0, 0, 0, 0, 4, 1, 0x01, 0xFF];
    assert forall i :: 0 <= i < 19 ==> f[i] == expected[i];
  }

  /** Fifteen well-formed entries are one short. */
  lemma FifteenEntries()
    ensures Instructions("Personalizada", "", "", SampleEntries[..15]) == Err(WrongCount)
  {
    SampleEntriesParse(15);
  }

  /** Lower-case digits read like upper-case ones, with or without `0x`. */
  lemma LowerCaseEntry(e: string)
    requires e == "0x2f"
    ensures ParseEntry(e) == Some(0x2F) && ParseEntry(e[2..]) == Some(0x2F)
  {
    assert !IsSpace(e[0]) && !IsSpace(e[3]) && Strip(e) == e && HasHexPrefix(e);
    assert e[2..] == "2f";
    TwoDigitEntry(e[2..], 0x2F);
    TwoDigitHex(e[2..]);
  }

  /** "100" is hexadecimal 256, which does not fit in a byte. */
  lemma EntryOverByte()
    ensures ParseEntry("100") == None
  {
    var e := "100";
    assert !IsSpace(e[0]) && !IsSpace(e[2]) && Strip(e) == e && !HasHexPrefix(e);
    assert e[..2][..1][..0] == [] && e[..2][..1] == "1" && e[..2] == "10";
    assert IsHex(e) && IsHex(e[..2]) && IsHex(e[..2][..1]);
    assert HexValue(e[..2][..1]) == 1;
    assert HexValue(e[..2]) == 16;
    assert HexValue(e) == 256;
  }

  /** One entry that does not fit in a byte rejects the whole set. */
  lemma OneBadEntry()
    ensures Instructions("Personalizada", "", "", SampleEntries[0 := "100"]) == Err(InvalidCustomValues)
  {
    var entries := SampleEntries[0 := "100"];
    EntryOverByte();
    CustomModeSpec("Personalizada", "", "", entries);
    assert ParseEntry(entries[0]).None?;
  }
}
