/** What the form does with a built instruction set: the hexadecimal listing
    shown by "Generar Instrucciones" (`actualizar_instrucciones`), and the
    19-byte frame that "Enviar por Serial" (`enviar_por_serial`) hands to the
    serial port once the instructions and the port name have been checked. */
module Packet {
  import opened Wrappers
  import opened Text
  import opened Builder

  const StartOfFrame: Byte := 0xAA
  const EndOfFrame: Byte := 0xFF
  const FlagSet: Byte := 0x01
  const FlagClear: Byte := 0x00

  /** Length of a frame around a 16-byte instruction set. */
  const PacketLength := InstructionCount + 3

  /** The test `(inst & 0xF0) == 0x40` on one instruction byte. */
  predicate HighNibbleIs4(b: Byte) {
    (b as bv8) & 0xF0 == 0x40
  }

  /** The bitwise test picks out exactly the bytes 0x40 to 0x4F. */
  lemma HighNibbleIs4Range(b: Byte)
    ensures HighNibbleIs4(b) <==> 0x40 <= b <= 0x4F
  {
  }

  /** The flag byte: `any(...)` over the instructions, scanned left to right. */
  function Flag(instructions: seq<Byte>): Byte {
    if instructions == [] then FlagClear
    else if HighNibbleIs4(instructions[0]) then FlagSet
    else Flag(instructions[1..])
  }

  /** The flag is 0x01 exactly when some instruction lies in 0x40..0x4F, and
      0x00 otherwise. */
  lemma {:induction false} FlagSpec(instructions: seq<Byte>)
    ensures Flag(instructions) == FlagSet <==> exists i :: 0 <= i < |instructions| && 0x40 <= instructions[i] <= 0x4F
    ensures Flag(instructions) == FlagClear <==> forall i :: 0 <= i < |instructions| ==> !(0x40 <= instructions[i] <= 0x4F)
  {
    if instructions != [] {
      var tail := instructions[1..];
      HighNibbleIs4Range(instructions[0]);
      FlagSpec(tail);
      assert forall i :: 0 <= i < |tail| ==> tail[i] == instructions[i + 1];
      if !HighNibbleIs4(instructions[0]) && Flag(tail) == FlagSet {
        var i :| 0 <= i < |tail| && 0x40 <= tail[i] <= 0x4F;
        assert 0x40 <= instructions[i + 1] <= 0x4F;
      }
    }
  }

  /** The frame `[0xAA] + instructions + [flag] + [0xFF]`. */
  function Frame(instructions: seq<Byte>): seq<Byte> {
    [StartOfFrame] + instructions + [Flag(instructions)] + [EndOfFrame]
  }

  /** The receiving side's view of a frame: the instructions it carries, when
      its sentinels and its flag are those the sender writes. */
  function Unframe(packet: seq<Byte>): Option<seq<Byte>> {
    if |packet| >= 3 && packet[0] == StartOfFrame && packet[|packet| - 1] == EndOfFrame
       && packet[|packet| - 2] == Flag(packet[1..|packet| - 2])
    then Some(packet[1..|packet| - 2])
    else None
  }

  /** Unframing inverts framing, and only frames unframe. */
  lemma FrameUnframe(instructions: seq<Byte>, packet: seq<Byte>)
    ensures Unframe(Frame(instructions)) == Some(instructions)
    ensures Unframe(packet) == Some(instructions) <==> packet == Frame(instructions)
  {
    var f := Frame(instructions);
    assert f[1..|f| - 2] == instructions;
    if Unframe(packet) == Some(instructions) {
      assert packet == [packet[0]] + packet[1..|packet| - 2] + [packet[|packet| - 2]] + [packet[|packet| - 1]];
    }
  }

  /** A 16-byte set frames into 19 bytes: 0xAA, the instructions unchanged,
      the flag, 0xFF. */
  lemma FrameLayout(instructions: seq<Byte>)
    requires |instructions| == InstructionCount
    ensures |Frame(instructions)| == PacketLength
    ensures Frame(instructions)[0] == StartOfFrame && Frame(instructions)[PacketLength - 1] == EndOfFrame
    ensures Frame(instructions)[1..InstructionCount + 1] == instructions
    ensures Frame(instructions)[InstructionCount + 1] in {FlagClear, FlagSet}
  {
    var f := Frame(instructions);
    assert f[1..InstructionCount + 1] == instructions;
    FlagSpec(instructions);
  }

  /** `f"0x{b:02X}"`: `0x` and two upper-case hexadecimal digits. */
  function RenderByte(b: Byte): (s: string)
    ensures |s| == 4 && s[..2] == "0x" && IsUpperHexDigit(s[2]) && IsUpperHexDigit(s[3])
    ensures HexDigitValue(s[2]) * 16 + HexDigitValue(s[3]) == b
  {
    "0x" + [UpperHexDigit(b / 16), UpperHexDigit(b % 16)]
  }

  /** Two hexadecimal digits read as one byte, high digit first. */
  lemma TwoDigitHex(s: string)
    requires |s| == 2 && IsHexDigit(s[0]) && IsHexDigit(s[1])
    ensures ParseHex(s) == Some(HexDigitValue(s[0]) * 16 + HexDigitValue(s[1]))
  {
    assert s[..1] == [s[0]] && s[..1][..0] == [];
    assert HexValue(s[..1]) == HexDigitValue(s[0]);
    assert IsHex(s);
    assert HexValue(s) == HexValue(s[..1]) * 16 + HexDigitValue(s[1]);
  }

  /** The custom-mode entry parser reads a rendered byte back, with or
      without its `0x` prefix. */
  lemma RenderByteRoundTrip(b: Byte)
    ensures ParseEntry(RenderByte(b)) == Some(b)
    ensures ParseEntry(RenderByte(b)[2..]) == Some(b)
  {
    var s := RenderByte(b);
    var digits := s[2..];
    assert digits[0] == s[2] && digits[1] == s[3];
    TwoDigitHex(digits);
    assert ParseEntry(s) == Some(b) by {
      assert !IsSpace(s[0]) && !IsSpace(s[3]);
      assert Strip(s) == s && HasHexPrefix(s);
    }
    assert ParseEntry(digits) == Some(b) by {
      assert !IsSpace(digits[0]) && !IsSpace(digits[1]);
      assert Strip(digits) == digits && digits[1] != 'x';
    }
  }

  /** A single hexadecimal digit, of either case, is a valid custom entry
      worth that digit's value. */
  lemma SingleDigitEntry(c: char)
    requires IsHexDigit(c)
    ensures ParseEntry([c]) == Some(HexDigitValue(c))
  {
    var s := [c];
    assert !IsSpace(s[0]) && Strip(s) == s && !HasHexPrefix(s) && IsHex(s);
    assert s[..0] == [];
    assert HexValue(s) == HexDigitValue(c);
  }

  /** The rendering of each byte, in order. */
  function Rendered(instructions: seq<Byte>): (tokens: seq<string>)
    ensures |tokens| == |instructions|
    ensures forall i :: 0 <= i < |tokens| ==> |tokens[i]| == 4
  {
    seq(|instructions|, i requires 0 <= i < |instructions| => RenderByte(instructions[i]))
  }

  /** `", ".join(f"0x{b:02X}" for b in instructions)`. */
  function HexDump(instructions: seq<Byte>): (s: string)
    ensures |s| == if |instructions| == 0 then 0 else 6 * |instructions| - 2
  {
    ListingLength(Rendered(instructions));
    Join(Rendered(instructions), ", ")
  }

  /** Four-character tokens joined by `", "` take six characters each, less
      the separator the last one lacks. */
  lemma {:induction false} ListingLength(tokens: seq<string>)
    requires forall i :: 0 <= i < |tokens| ==> |tokens[i]| == 4
    ensures |Join(tokens, ", ")| == if |tokens| == 0 then 0 else 6 * |tokens| - 2
  {
    if |tokens| > 1 {
      ListingLength(tokens[1..]);
    }
  }

  /** Token i of such a listing sits at offset 6 * i, followed by `", "`
      unless it is the last one. */
  lemma {:induction false} ListingAt(tokens: seq<string>, i: nat)
    requires forall i :: 0 <= i < |tokens| ==> |tokens[i]| == 4
    requires i < |tokens|
    ensures 6 * i + 4 <= |Join(tokens, ", ")| && Join(tokens, ", ")[6 * i..6 * i + 4] == tokens[i]
    ensures i + 1 < |tokens| ==>
      6 * i + 6 <= |Join(tokens, ", ")| && Join(tokens, ", ")[6 * i + 4..6 * i + 6] == ", "
  {
    var s := Join(tokens, ", ");
    ListingLength(tokens);
    if |tokens| == 1 {
      assert s[0..4] == s;
    } else {
      var tail := tokens[1..];
      var head := tokens[0] + ", ";
      var rest := Join(tail, ", ");
      assert s == head + rest;
      ListingLength(tail);
      if i == 0 {
        assert s[0..4] == head[0..4];
        assert s[4..6] == head[4..6];
      } else {
        ListingAt(tail, i - 1);
        assert tail[i - 1] == tokens[i];
        SliceAfter(head, rest, 6 * i, 6 * i + 4);
        if i + 1 < |tokens| {
          SliceAfter(head, rest, 6 * i + 4, 6 * i + 6);
        }
      }
    }
  }

  /** A slice lying past `head` in `head + rest` is a slice of `rest`. */
  lemma SliceAfter<T>(head: seq<T>, rest: seq<T>, from: nat, to: nat)
    requires |head| <= from <= to <= |head| + |rest|
    ensures (head + rest)[from..to] == rest[from - |head|..to - |head|]
  {
    var s := head + rest;
    forall j | from <= j < to ensures s[j] == rest[j - |head|] {
    }
  }

  /** Byte i's rendering sits at offset 6 * i of the listing, followed by
      `", "` unless it is the last byte. */
  lemma HexDumpAt(instructions: seq<Byte>, i: nat)
    requires i < |instructions|
    ensures HexDump(instructions)[6 * i..6 * i + 4] == RenderByte(instructions[i])
    ensures i + 1 < |instructions| ==> HexDump(instructions)[6 * i + 4..6 * i + 6] == ", "
  {
    ListingAt(Rendered(instructions), i);
  }

  /** The tokens of a listing, one per byte. */
  function DumpTokens(instructions: seq<Byte>): (tokens: seq<string>)
    ensures |tokens| == |instructions|
  {
    var s := HexDump(instructions);
    seq(|instructions|, i requires 0 <= i < |instructions| => s[6 * i..6 * i + 4])
  }

  /** Each token of the listing reads back, with the custom-mode entry
      parser, as the byte it renders. */
  lemma DumpTokensParse(instructions: seq<Byte>)
    ensures forall i :: 0 <= i < |instructions| ==> ParseEntry(DumpTokens(instructions)[i]) == Some(instructions[i])
  {
    forall i | 0 <= i < |instructions| ensures ParseEntry(DumpTokens(instructions)[i]) == Some(instructions[i]) {
      HexDumpAt(instructions, i);
      RenderByteRoundTrip(instructions[i]);
    }
  }

  /** Typing the listing's tokens into the custom fields rebuilds the same
      instruction set. */
  lemma DumpRoundTrip(instructions: seq<Byte>, operation: string, op1: string, op2: string)
    requires |instructions| == InstructionCount
    requires !IsTemplateName(operation)
    ensures Instructions(operation, op1, op2, DumpTokens(instructions)) == Ok(instructions)
  {
    DumpTokensParse(instructions);
    ParseEachOf(ParseEntry, DumpTokens(instructions), instructions);
  }

  /** `actualizar_instrucciones`: the listing of the built instructions, or
      the reason they could not be built. */
  method Generate(operation: string, op1: string, op2: string, entries: seq<string>)
    returns (r: Result<string, BuildError>)
    ensures var built := Instructions(operation, op1, op2, entries);
      && (built.Err? ==> r == Err(built.error))
      && (built.Ok? ==> r == Ok(HexDump(built.value)) && |r.value| == 6 * InstructionCount - 2)
  {
    var built := BuildInstructions(operation, op1, op2, entries);
    if built.Err? {
      return Err(built.error);
    }
    return Ok(HexDump(built.value));
  }

  /** Why "Enviar por Serial" sends nothing. */
  datatype SendError =
    | InvalidInstructions(cause: BuildError)   // the instructions could not be built
    | MissingPort                              // the port name is empty once stripped

  /** What is handed to the serial port: its stripped name and the frame. */
  datatype Transmission = Transmission(port: string, packet: seq<Byte>)

  /** The checks and framing of `enviar_por_serial`: the instructions first,
      then the port name; only then is the frame built. */
  method PrepareSend(operation: string, op1: string, op2: string, entries: seq<string>, port: string)
    returns (r: Result<Transmission, SendError>)
    ensures var built := Instructions(operation, op1, op2, entries);
      && (built.Err? ==> r == Err(InvalidInstructions(built.error)))
      && (built.Ok? && (forall i :: 0 <= i < |port| ==> IsSpace(port[i])) ==> r == Err(MissingPort))
      && (built.Ok? && (exists i :: 0 <= i < |port| && !IsSpace(port[i])) ==>
            && r.Ok?
            && r.value.port == Strip(port) && r.value.port != []
            && Unframe(r.value.packet) == Some(built.value)
            && |r.value.packet| == PacketLength
            && r.value.packet[0] == StartOfFrame && r.value.packet[PacketLength - 1] == EndOfFrame
            && r.value.packet[1..InstructionCount + 1] == built.value
            && r.value.packet[InstructionCount + 1] == Flag(built.value))
  {
    var built := BuildInstructions(operation, op1, op2, entries);
    if built.Err? {
      return Err(InvalidInstructions(built.error));
    }
    var name := Strip(port);
    StripEmpty(port);
    if name == [] {
      return Err(MissingPort);
    }
    var instructions := built.value;
    var packet := Frame(instructions);
    FrameLayout(instructions);
    FrameUnframe(instructions, packet);
    return Ok(Transmission(name, packet));
  }
}
