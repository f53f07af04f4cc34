# Intercafe instruction-packet builder in Dafny

`Intercafe.py` is a small Tkinter form. It prepares a 16-byte instruction set for an
8-bit processor on an FPGA and sends it over a serial port. This project models the
one piece of that form with rules in it: the instruction-packet builder. It covers:

- the two templates, `PLANTILLA_SUMA` ("Suma", addition) and `PLANTILLA_RESTA`
  ("Resta", subtraction). Each is a fixed 16-byte sequence whose slots 14 and 15
  receive two decimal operands in 0..255;
- custom mode, selected by any other operation name. Each text entry is stripped and
  loses one leading `0x`, then is read as hexadecimal. It must fit in a byte, and there
  must be exactly 16 entries;
- the flag byte: `0x01` when some instruction byte has high nibble `0x4`, else `0x00`;
- the 19-byte frame `0xAA`, the 16 instructions, the flag, `0xFF`;
- the send gate of "Enviar por Serial": instructions are checked first, then the port
  name, and only then is the frame built;
- the listing shown by "Generar Instrucciones": `0xHH` per byte (upper-case digits),
  joined by `", "`.

The widget reads become plain parameters: an operation name, two operand texts, a
sequence of custom entry texts and a port text. `None` returns become a `Result` whose
error cases stand for the distinct status messages.

Files and modules:

- `wrappers.dfy` (`Wrappers`): `Option` and `Result`.
- `text.dfy` (`Text`): Python's `str.strip()` (the full `str.isspace()` set), `int(s)`
  for decimal operands, hexadecimal digit strings, upper-case digit rendering.
- `builder.dfy` (`Builder`): the templates, the error type, the specification function
  `Instructions`, and the imperative `obtener_instrucciones`: `BuildInstructions` selects
  the template or custom entry; `ReadCustomEntries` is the loop that appends the custom
  bytes; `FillTemplate` updates slots 14 and 15 of the template copy. Each is proved equal
  to the matching part of `Instructions`.
- `packet.dfy` (`Packet`): flag, framing and its inverse, hex listing, `Generate`
  (`actualizar_instrucciones`) and `PrepareSend` (`enviar_por_serial` up to the write).
- `scenarios.dfy` (`Scenarios`): worked examples, such as "Suma" 5 and 10, the operand
  errors, and the custom sample whose `0x40` sets the flag.

The templates are immutable `const` sequences, and `BuildInstructions` promises
`r == Instructions(...)`, a function of its inputs alone. So building twice from the
same inputs gives the same result, and no call alters a template. The source gets the
same guarantee by copying the template with `.copy()`.

The code separates an operand that is not an integer ("Operandos inválidos.") from an
integer outside 0..255 ("Operandos fuera de rango."). Both operands are read before
either is range-checked. So `"300"` gives `OperandsOutOfRange`, not a generic
invalid-operand error, and `("300", "abc")` gives `InvalidOperands`. The code has two
distinct messages, and the model keeps both.

## Model

| member | source | states |
|---|---|---|
| `Text.Join` | Intercafe.py:92 | computes `sep.join(parts)`; its layout for the listing is stated by `Packet.ListingLength` and `Packet.ListingAt` |
| `Text.TrimStart` | Intercafe.py:55 | dropping leading whitespace never lengthens the text and leaves it empty or starting with a non-whitespace character |
| `Text.TrimEnd` | Intercafe.py:55 | dropping trailing whitespace never lengthens the text and leaves it empty or ending with a non-whitespace character |
| `Text.TrimStartSpec` | Intercafe.py:55 | what `TrimStart` keeps is a suffix of the text and everything it drops is whitespace, so it is the longest suffix not starting with whitespace |
| `Text.TrimEndSpec` | Intercafe.py:55 | what `TrimEnd` keeps is a prefix of the text and everything it drops is whitespace |
| `Text.Strip` | Intercafe.py:55 | `strip()` leaves no whitespace at either end, never lengthens the text, and leaves text without edge whitespace unchanged |
| `Text.StripSpec` | Intercafe.py:55 | what `strip()` keeps is exactly the text between a leading and a trailing run of whitespace, so with `Strip`'s contract the result is determined: `" COM10 "` gives `"COM10"` |
| `Text.StripEmpty` | Intercafe.py:100-103 | `strip()` gives the empty string exactly when the text is all whitespace, which is when the port name counts as missing |
| `Text.HexDigitValue` | Intercafe.py:60 | each hexadecimal digit, either case, is worth less than 16 |
| `Text.UpperHexDigit` | Intercafe.py:92 | the digit written for a value below 16 is an upper-case hexadecimal digit that reads back as that value |
| `Text.HexDigitCase` | Intercafe.py:60 | a hexadecimal digit of either case is worth the value of its upper-case form, so `a`-`f` read as 10 to 15, and writing that value back with `X` gives the upper-case digit |
| `Text.ParseHex` | Intercafe.py:60 | computes `int(v, 16)` on plain digits, `None` for the ValueError; it accepts exactly the non-empty strings of hexadecimal digits (`Builder.EntryIff`). `"100"` reads as 256, and `ParseEntry`'s range check rejects it (`Scenarios.EntryOverByte`); `Packet.TwoDigitHex` gives the value of two digits |
| `Text.ParseDecimal` | Intercafe.py:74-75 | computes `int(s)` as surrounding whitespace, an optional sign and ASCII digits; `Text.DecimalIff` states which texts it accepts and the value of each; everything else, including empty and blank text, is not an integer |
| `Text.DecimalIff` | Intercafe.py:74-75 | `int(s)` gives n exactly when the stripped text is a digit string worth n, bare or after `+`, or one worth -n after `-`. Every other text fails, so both ways out of the `try` are pinned |
| `Text.DecimalDigits` | Intercafe.py:74-75 | text that `int()` accepts is, once stripped, a digit string after one sign or none, and its value is that of the digits, negated after `-` |
| `Text.DigitsDecimal` | Intercafe.py:74-75 | a digit string after one sign or none, with any surrounding whitespace, is accepted by `int()` with its value, negated after `-` |
| `Text.ParseUnsigned` | Intercafe.py:74-75 | the modelled `int()` reads a plain digit string as its decimal value (no digit-count limit, see Left out) |
| `Text.ParseNegative` | Intercafe.py:74-75 | `int()` reads a minus sign and digits as the negated value, so negative operands are integers and reach the range check |
| `Text.ParseDecimalText` | Intercafe.py:74-75 | the modelled `int()` gives `int(str(n)) == n` for every natural n (no digit-count limit, see Left out) |
| `Text.ParseNegativeText` | Intercafe.py:74-75 | the modelled `int()` gives `int("-" + str(n)) == -n` for every natural n, so every negative operand is an integer that fails the range check (no digit-count limit, see Left out) |
| `Builder.TemplateFor` | Intercafe.py:47-50 | "Suma" and "Resta" select a 16-byte template |
| `Builder.ParseEntry` | Intercafe.py:55-62 | computes one custom entry: strip, drop one leading `0x`, read as hexadecimal, keep only 0..255; `Packet.RenderByteRoundTrip`, `Packet.SingleDigitEntry` and the entry scenarios give concrete values |
| `Builder.EntryIff` | Intercafe.py:55-62 | an entry is read as b exactly when, once stripped, it is a string of hexadecimal digits worth b, bare or after one `0x`. Empty, non-hexadecimal and over-255 entries are rejected |
| `Builder.EntryDigits` | Intercafe.py:55-62 | an accepted entry, once stripped, is one `0x` or none before a digit string whose value is the byte read |
| `Builder.DigitsEntry` | Intercafe.py:55-62 | a digit string worth at most 255, bare or after one `0x` and surrounded by any whitespace, is accepted with its value |
| `Builder.ParseEach` | Intercafe.py:54-63 | computes the entry loop as a value: one byte per entry in order, failing on the first bad entry; its properties are `Builder.ParseEachSpec`, `Builder.ParseEachStep` and `Builder.ParseEachOf` |
| `Builder.CustomInstructions` | Intercafe.py:51-70 | computes custom mode: the entries read by `ParseEach`, then the count check; stated by `Builder.CustomModeSpec` and implemented by `Builder.ReadCustomEntries` |
| `Builder.Instructions` | Intercafe.py:44-86 | computes what `obtener_instrucciones` yields for an operation, two operands and the entries; stated by `Builder.FillOperands`, `Builder.CustomModeSpec` and `Builder.TemplateModeSpec`, implemented by `Builder.BuildInstructions` |
| `Builder.FillOperands` | Intercafe.py:72-84 | template mode fails with InvalidOperands exactly when either operand is not an integer, and with OperandsOutOfRange exactly when both are integers and one lies outside 0..255; on success, slots 0..13 equal the template and slots 14 and 15 hold the operands |
| `Builder.ParseEachSpec` | Intercafe.py:53-66 | the custom entries parse exactly when every entry does, into one byte per entry in order; any failure rejects the whole list with InvalidCustomValues and yields no partial result |
| `Builder.ParseEachStep` | Intercafe.py:57-63 | reading one more valid entry appends exactly its byte to the bytes read so far |
| `Builder.ParseEachOf` | Intercafe.py:53-63 | entries that each parse to the matching byte parse to exactly that byte sequence |
| `Builder.CustomModeSpec` | Intercafe.py:51-70 | in custom mode the build succeeds exactly when all entries parse and there are 16 of them, byte i being entry i's value; a bad entry gives InvalidCustomValues whatever the count; a count other than 16 with all entries valid gives WrongCount |
| `Builder.TemplateModeSpec` | Intercafe.py:47-50 | in template mode the custom entries are ignored and, on success, all 16 bytes other than slots 14 and 15 are the template's |
| `Builder.BuildInstructions` | Intercafe.py:44-86 | selecting "Suma", "Resta" or custom entry computes exactly `Instructions`, and every success has 16 bytes |
| `Builder.ReadCustomEntries` | Intercafe.py:51-70 | the loop that appends one byte per entry, stopping at the first bad one, then checks the count, computes exactly custom mode of `Instructions` |
| `Builder.FillTemplate` | Intercafe.py:72-86 | reading both operands, range-checking them and overwriting slots 14 and 15 of the copy computes exactly `FillOperands` |
| `Packet.HighNibbleIs4` | Intercafe.py:106 | computes the test `(inst & 0xF0) == 0x40` on bit-vectors; `Packet.HighNibbleIs4Range` states which bytes pass |
| `Packet.Flag` | Intercafe.py:106-107 | computes the flag byte, `any(...)` scanned left to right; `Packet.FlagSpec` states its value |
| `Packet.HighNibbleIs4Range` | Intercafe.py:106 | `(b & 0xF0) == 0x40` holds exactly for the bytes 0x40..0x4F |
| `Packet.FlagSpec` | Intercafe.py:105-107 | the flag is 0x01 exactly when some instruction lies in 0x40..0x4F, and 0x00 exactly when none does |
| `Packet.Frame` | Intercafe.py:109 | computes `[0xAA] + instructions + [flag] + [0xFF]`; `Packet.FrameUnframe` and `Packet.FrameLayout` state its layout and inverse |
| `Packet.FrameUnframe` | Intercafe.py:109 | unframing a frame returns its instructions, and a packet unframes to some instructions exactly when it is their frame |
| `Packet.FrameLayout` | Intercafe.py:109 | a 16-byte set frames into 19 bytes: 0xAA, the instructions unchanged, a flag of 0x00 or 0x01, 0xFF |
| `Packet.RenderByte` | Intercafe.py:92 | `f"0x{b:02X}"` is four characters, `0x` and two upper-case hexadecimal digits, whose value is b |
| `Packet.TwoDigitHex` | Intercafe.py:60 | two hexadecimal digits read as high digit times 16 plus low digit |
| `Packet.RenderByteRoundTrip` | Intercafe.py:57-63 | the custom-mode entry parser reads a rendered byte back, with or without its `0x` |
| `Packet.SingleDigitEntry` | Intercafe.py:57-63 | a single hexadecimal digit of either case is an accepted custom entry with that digit's value |
| `Packet.Rendered` | Intercafe.py:92 | one rendering per byte, each of four characters |
| `Packet.HexDump` | Intercafe.py:92 | the listing of n bytes has 6n - 2 characters (none for no bytes) |
| `Packet.ListingLength` | Intercafe.py:92 | joining n four-character tokens with `", "` gives 6n - 2 characters (none for no tokens) |
| `Packet.ListingAt` | Intercafe.py:92 | in such a join, token i sits at offset 6i, followed by `", "` unless it is the last |
| `Packet.HexDumpAt` | Intercafe.py:92 | byte i's rendering sits at offset 6i of the listing, followed by `", "` unless it is the last |
| `Packet.DumpTokensParse` | Intercafe.py:57-63 | each token of the listing reads back through the entry parser as its byte |
| `Packet.DumpRoundTrip` | Intercafe.py:51-70 | typing the 16 tokens of a listing into the custom fields rebuilds the same instructions |
| `Packet.Generate` | Intercafe.py:88-92 | "Generar Instrucciones" shows the listing of the built instructions, 94 characters, or reports the build error |
| `Packet.PrepareSend` | Intercafe.py:94-109 | a build error wins over a blank port; a port that is all whitespace gives MissingPort; otherwise the stripped port and a 19-byte frame with 0xAA, the instructions, their flag and 0xFF, which unframes to the instructions |
| `Scenarios.AddFiveTen` | Intercafe.py:72-78 | "Suma" with "5" and "10" gives 0E 2F 5E 60, ten zero bytes, 05, 0A |
| `Scenarios.SubFiveTen` | Intercafe.py:15-20 | "Resta" with "5" and "10" gives 0E 3F 5E 60, ten zero bytes, 05, 0A |
| `Scenarios.OperandTooLarge` | Intercafe.py:76-81 | operand "300" gives OperandsOutOfRange |
| `Scenarios.OperandNegative` | Intercafe.py:76-81 | operand "-1" gives OperandsOutOfRange |
| `Scenarios.NotANumber` | Intercafe.py:74 | "abc" is not an integer |
| `Scenarios.OperandNotInteger` | Intercafe.py:73-84 | ("300", "abc") gives InvalidOperands, because both operands are read before the range check |
| `Scenarios.CustomSample` | Intercafe.py:53-70 | the sample entries, one with a `0x` prefix, build the sample bytes |
| `Scenarios.SampleFlag` | Intercafe.py:106-107 | the sample's 0x40 sets the flag |
| `Scenarios.SampleFrame` | Intercafe.py:109 | the sample frames as AA, the 16 bytes, 01, FF |
| `Scenarios.FifteenEntries` | Intercafe.py:67-69 | fifteen valid entries give WrongCount |
| `Scenarios.EntryOverByte` | Intercafe.py:60-62 | "100" reads as 256 and is rejected |
| `Scenarios.LowerCaseEntry` | Intercafe.py:55-62 | the lower-case entry `"0x2f"`, with or without its prefix, reads as 0x2F |
| `Scenarios.OneBadEntry` | Intercafe.py:57-66 | one rejected entry rejects the whole set |

## Left out

- The Tkinter interface (Intercafe.py:22-42, 121-183) is not modelled: the window, frames,
  combobox, the show/hide toggle `actualizar_visibilidad_personalizado` and the default
  field values. Its inputs are parameters of the model.
- The serial transport (Intercafe.py:111-118) is not modelled: opening the port at 9600 baud
  with a 1 s timeout, the 2 s settle delay, the write, the close, and turning an
  exception into a status line. It is blocking I/O in a foreign library. `PrepareSend`
  stops at the port name and frame handed to it.
- The status texts (`resultado`, `estado_serial`) and their wording and emoji are not
  modelled; each message is an error case of `BuildError` or `SendError`.
- The custom entries are an arbitrary-length sequence. The form always has exactly 16
  fields, which makes the count check unreachable there; the model keeps it reachable.
- ParseEntry: reads only plain ASCII hexadecimal digits after the strip and the one `0x`
  removal. Python's `int(v, 16)` also accepts a sign, inner whitespace, underscores
  between digits, its own `0x`/`0X` prefix, and non-ASCII decimal digits such as
  `"٣"` or the full-width `"５"`. So the source accepts `0X0E`, `0x0x0E`, `+5`, `0x 5`
  and `"٣"`, which the model rejects.
- ParseDecimal: models `int(s)` as whitespace, an optional sign and ASCII digits.
  Underscores between digits and non-ASCII decimal digits, which Python also accepts,
  are left out.
- ParseDecimal: has no limit on the number of digits. From Python 3.11 on, `int()`
  raises ValueError for a decimal string of more than 4300 digits, leading zeros
  included. So 4300 zeros followed by `5` give InvalidOperands in the source but fill 5
  in the model, and a 4301-digit number gives InvalidOperands in the source but
  OperandsOutOfRange in the model.
- ParseDecimal: skips the same whitespace as `str.strip()`. `int()` does not skip the
  ASCII separators U+001C to U+001F; it rejects text that has them at either end. So
  `"\x1c5"` gives InvalidOperands in the source and reads as 5 in the model.
- ParseUnsigned: states the unlimited reading. `int()` agrees only for digit strings
  of at most 4300 characters (Python 3.11 on).
- ParseDecimalText: states the unlimited reading. `int()` agrees only for numbers of
  at most 4300 digits (Python 3.11 on).
- ParseNegativeText: states the unlimited reading. `int()` agrees only for numbers of
  at most 4300 digits (Python 3.11 on).
