/** The 16-byte instruction set sent to the processor: the two templates with
    their operand slots, the hand-entered custom set, and the builder
    `obtener_instrucciones` that chooses between them. */
module Builder {
  import opened Wrappers
  import opened Text

  /** An instruction byte; the source keeps them as Python ints checked against 0..255. */
  type Byte = x: int | 0 <= x < 256

  /** Number of instruction bytes in a set. */
  const InstructionCount := 16

  /** Slots of the templates that receive the first and the second operand. */
  const Operand1Slot := 14
  const Operand2Slot := 15

  /** The addition template (`PLANTILLA_SUMA`). */
  const AddTemplate: seq<Byte> := [
    0x0E, 0x2F, 0x5E, 0x60,
    0x00, 0x00, 0x00, 0x00,
    0x00, 0x00, 0x00, 0x00,
    0x00, 0x00, 0x04, 0x01
  ]

  /** The subtraction template (`PLANTILLA_RESTA`). */
  const SubTemplate: seq<Byte> := [
    0x0E, 0x3F, 0x5E, 0x60,
    0x00, 0x00, 0x00, 0x00,
    0x00, 0x00, 0x00, 0x00,
    0x00, 0x00, 0x04, 0x01
  ]

  /** Operation names the selector offers; any other name selects custom entry. */
  const AddName := "Suma"
  const SubName := "Resta"

  /** The reasons a build fails, one per status message of the builder. */
  datatype BuildError =
    | InvalidCustomValues   // an entry is not hexadecimal or exceeds 0xFF
    | WrongCount            // the custom entries do not give 16 bytes
    | OperandsOutOfRange    // an operand is an integer outside 0..255
    | InvalidOperands       // an operand is not an integer

  predicate IsTemplateName(operation: string) {
    operation == AddName || operation == SubName
  }

  function TemplateFor(operation: string): (t: seq<Byte>)
    requires IsTemplateName(operation)
    ensures |t| == InstructionCount
  {
    if operation == AddName then AddTemplate else SubTemplate
  }

  predicate HasHexPrefix(v: string) {
    |v| >= 2 && v[..2] == "0x"
  }

  /** One custom entry: strip it, drop one leading lower-case `0x`, read the
      rest as hexadecimal and accept it only when it fits in a byte. */
  function ParseEntry(entry: string): Option<Byte> {
    var v := Strip(entry);
    var digits := if HasHexPrefix(v) then v[2..] else v;
    match ParseHex(digits)
    case None => None
    case Some(n) => if 0 <= n <= 255 then Some(n) else None
  }

  /** An entry is accepted as `b` exactly when, once stripped, it is a
      string of hexadecimal digits worth `b`, bare or after one `0x`; every
      other entry (empty, not hexadecimal, above 255) is rejected. */
  lemma EntryIff(e: string, b: Byte)
    ensures ParseEntry(e) == Some(b) <==>
      exists d {:trigger HexValue(d)} :: IsHex(d) && HexValue(d) == b && (Strip(e) == d || Strip(e) == "0x" + d)
  {
    if ParseEntry(e) == Some(b) {
      EntryDigits(e);
    }
    if exists d {:trigger HexValue(d)} :: IsHex(d) && HexValue(d) == b && (Strip(e) == d || Strip(e) == "0x" + d) {
      var d :| IsHex(d) && HexValue(d) == b && (Strip(e) == d || Strip(e) == "0x" + d);
      DigitsEntry(e, d);
    }
  }

  /** An accepted entry is one `0x`, or none, before a digit string. */
  lemma EntryDigits(e: string)
    requires ParseEntry(e).Some?
    ensures var d := if HasHexPrefix(Strip(e)) then Strip(e)[2..] else Strip(e);
      IsHex(d) && HexValue(d) == ParseEntry(e).value && (Strip(e) == d || Strip(e) == "0x" + d)
  {
    var v := Strip(e);
    if HasHexPrefix(v) {
      assert v == "0x" + v[2..];
    }
  }

  /** A digit string, bare or after one `0x`, is read as its value. */
  lemma DigitsEntry(e: string, d: string)
    requires IsHex(d) && HexValue(d) <= 255 && (Strip(e) == d || Strip(e) == "0x" + d)
    ensures ParseEntry(e) == Some(HexValue(d))
  {
    var v := Strip(e);
    if v == "0x" + d {
      assert HasHexPrefix(v) && v[2..] == d;
    } else {
      assert IsHexDigit(d[0]);
      if |d| >= 2 {
        assert IsHexDigit(d[1]) && v[..2][1] == d[1];
      }
      assert !HasHexPrefix(v);
    }
  }

  /** The custom entries read left to right with `parse`; the first entry
      it rejects rejects the whole list. */
  function ParseEach(parse: string -> Option<Byte>, entries: seq<string>): Result<seq<Byte>, BuildError> {
    if entries == [] then Ok([])
    else
      match ParseEach(parse, entries[..|entries| - 1])
      case Err(e) => Err(e)
      case Ok(prefix) =>
        match parse(entries[|entries| - 1])
        case None => Err(InvalidCustomValues)
        case Some(b) => Ok(prefix + [b])
  }

  /** Custom mode: every entry parses, entry by entry, and there are exactly 16. */
  function CustomInstructions(entries: seq<string>): Result<seq<Byte>, BuildError> {
    match ParseEach(ParseEntry, entries)
    case Err(e) => Err(e)
    case Ok(bytes) => if |bytes| != InstructionCount then Err(WrongCount) else Ok(bytes)
  }

  /** Template mode: both operands are read as integers first, then both
      must lie in 0..255; they then replace slots 14 and 15 of a copy of the
      template, which keeps every other byte. */
  function FillOperands(template: seq<Byte>, op1: string, op2: string): (r: Result<seq<Byte>, BuildError>)
    requires |template| == InstructionCount
    ensures r.Err? <==> r == Err(InvalidOperands) || r == Err(OperandsOutOfRange)
    ensures r == Err(InvalidOperands) <==> ParseDecimal(op1).None? || ParseDecimal(op2).None?
    ensures r == Err(OperandsOutOfRange) <==>
      ParseDecimal(op1).Some? && ParseDecimal(op2).Some? &&
      !(0 <= ParseDecimal(op1).value <= 255 && 0 <= ParseDecimal(op2).value <= 255)
    ensures r.Ok? ==>
      |r.value| == InstructionCount &&
      r.value[..Operand1Slot] == template[..Operand1Slot] &&
      Some(r.value[Operand1Slot]) == ParseDecimal(op1) &&
      Some(r.value[Operand2Slot]) == ParseDecimal(op2)
  {
    match (ParseDecimal(op1), ParseDecimal(op2))
    case (Some(a), Some(b)) =>
      if 0 <= a <= 255 && 0 <= b <= 255 then Ok(template[Operand1Slot := a][Operand2Slot := b])
      else Err(OperandsOutOfRange)
    case _ => Err(InvalidOperands)
  }

  /** What `obtener_instrucciones` yields for a selected operation, the two
      operand texts and the custom entry texts. */
  function Instructions(operation: string, op1: string, op2: string, entries: seq<string>): Result<seq<Byte>, BuildError> {
    if IsTemplateName(operation) then FillOperands(TemplateFor(operation), op1, op2)
    else CustomInstructions(entries)
  }

  /** A list parses exactly when each entry does, into one byte per entry in
      the same order; the only error is `InvalidCustomValues`. */
  lemma {:induction false} ParseEachSpec(parse: string -> Option<Byte>, entries: seq<string>)
    ensures ParseEach(parse, entries).Ok? <==> forall i :: 0 <= i < |entries| ==> parse(entries[i]).Some?
    ensures ParseEach(parse, entries).Err? ==> ParseEach(parse, entries).error == InvalidCustomValues
    ensures ParseEach(parse, entries).Ok? ==>
      |ParseEach(parse, entries).value| == |entries| &&
      forall i :: 0 <= i < |entries| ==> Some(ParseEach(parse, entries).value[i]) == parse(entries[i])
  {
    if entries != [] {
      var init := entries[..|entries| - 1];
      ParseEachSpec(parse, init);
      assert forall i :: 0 <= i < |init| ==> init[i] == entries[i];
    }
  }

  /** Entries that each parse to the matching byte parse to those bytes. */
  lemma ParseEachOf(parse: string -> Option<Byte>, entries: seq<string>, bytes: seq<Byte>)
    requires |entries| == |bytes|
    requires forall i :: 0 <= i < |entries| ==> parse(entries[i]) == Some(bytes[i])
    ensures ParseEach(parse, entries) == Ok(bytes)
  {
    ParseEachSpec(parse, entries);
    assert ParseEach(parse, entries).value == bytes;
  }

  /** Reading one more entry appends its byte. */
  lemma ParseEachStep(parse: string -> Option<Byte>, entries: seq<string>, i: nat, prefix: seq<Byte>)
    requires i < |entries| && parse(entries[i]).Some?
    requires ParseEach(parse, entries[..i]) == Ok(prefix)
    ensures ParseEach(parse, entries[..i + 1]) == Ok(prefix + [parse(entries[i]).value])
  {
    assert entries[..i + 1][..i] == entries[..i];
  }

  /** Custom mode succeeds exactly when all entries parse and there are 16 of
      them, giving byte i from entry i; a bad entry wins over a wrong count. */
  lemma CustomModeSpec(operation: string, op1: string, op2: string, entries: seq<string>)
    requires !IsTemplateName(operation)
    ensures var r := Instructions(operation, op1, op2, entries);
      && (r.Ok? <==> |entries| == InstructionCount && forall i :: 0 <= i < |entries| ==> ParseEntry(entries[i]).Some?)
      && (r == Err(InvalidCustomValues) <==> exists i :: 0 <= i < |entries| && ParseEntry(entries[i]).None?)
      && (r == Err(WrongCount) <==>
            |entries| != InstructionCount && forall i :: 0 <= i < |entries| ==> ParseEntry(entries[i]).Some?)
      && (r.Ok? ==> |r.value| == |entries| && forall i :: 0 <= i < |entries| ==> Some(r.value[i]) == ParseEntry(entries[i]))
  {
    ParseEachSpec(ParseEntry, entries);
  }

  /** Template mode ignores the custom entries and keeps the template bytes
      outside the operand slots. */
  lemma TemplateModeSpec(operation: string, op1: string, op2: string, entries: seq<string>, other: seq<string>)
    requires IsTemplateName(operation)
    ensures Instructions(operation, op1, op2, entries) == Instructions(operation, op1, op2, other)
    ensures var r := Instructions(operation, op1, op2, entries);
      r.Ok? ==> (|r.value| == InstructionCount &&
        forall i :: 0 <= i < InstructionCount && i != Operand1Slot && i != Operand2Slot ==>
          r.value[i] == TemplateFor(operation)[i])
  {
  }

  /** `obtener_instrucciones`: a copy of the selected template with its
      operand slots overwritten, or the custom entries read one by one. */
  method BuildInstructions(operation: string, op1: string, op2: string, entries: seq<string>)
    returns (r: Result<seq<Byte>, BuildError>)
    ensures r == Instructions(operation, op1, op2, entries)
    ensures r.Ok? ==> |r.value| == InstructionCount
  {
    var instructions: seq<Byte>;
    if operation == AddName {
      instructions := AddTemplate;
    } else if operation == SubName {
      instructions := SubTemplate;
    } else {
      r := ReadCustomEntries(entries);
      return;
    }
    r := FillTemplate(instructions, op1, op2);
  }

  /** The custom branch of `obtener_instrucciones`: each entry is read as a
      byte with `ParseEntry` and appended in order; the first bad entry stops
      the loop, and the count is checked once all entries are read. */
  method ReadCustomEntries(entries: seq<string>) returns (r: Result<seq<Byte>, BuildError>)
    ensures r == CustomInstructions(entries)
  {
    var instructions: seq<Byte> := [];
    var i := 0;
    while i < |entries|
      invariant 0 <= i <= |entries|
      invariant ParseEach(ParseEntry, entries[..i]) == Ok(instructions)
    {
      var entry := ParseEntry(entries[i]);
      if entry.None? {
        ParseEachSpec(ParseEntry, entries);
        return Err(InvalidCustomValues);
      }
      ParseEachStep(ParseEntry, entries, i, instructions);
      instructions := instructions + [entry.value];
      i := i + 1;
    }
    assert entries[..i] == entries;
    if |instructions| != InstructionCount {
      return Err(WrongCount);
    }
    return Ok(instructions);
  }

  /** The template branch of `obtener_instrucciones`: both operands are read,
      then range-checked, then written into slots 14 and 15 of the copy. */
  method FillTemplate(template: seq<Byte>, op1: string, op2: string) returns (r: Result<seq<Byte>, BuildError>)
    requires |template| == InstructionCount
    ensures r == FillOperands(template, op1, op2)
  {
    var instructions := template;
    var a := ParseDecimal(op1);
    var b := ParseDecimal(op2);
    if a.None? || b.None? {
      return Err(InvalidOperands);
    }
    if 0 <= a.value <= 255 && 0 <= b.value <= 255 {
      instructions := instructions[Operand1Slot := a.value];
      instructions := instructions[Operand2Slot := b.value];
    } else {
      return Err(OperandsOutOfRange);
    }
    return Ok(instructions);
  }
}
