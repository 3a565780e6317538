# LS-8 assembler, modelled in Dafny

This project models the two-pass assembler for the LS-8 eight-bit computer
(`src/asm.js`). The assembler reads assembly source line by line and writes
one text line per entry of its code list. A machine-code byte is written as
its binary digits, optionally followed by ` # ` and an annotation. These are
eight digits for opcodes, registers and data, and more than eight for an
LDI immediate or a label address of 256 or more, since `p8` only pads. A
label definition is written as a marker line `# LABEL (addr):`.

- **Pass 1** is the line handler. It strips the comment and trims the line,
  then splits it into an optional `label:`, an opcode and up to two operands,
  upper-casing all four. A label is recorded at the current address. The
  opcode is then emitted:
  - `DS` gives one byte per character;
  - `DB` gives one byte for an integer;
  - any other mnemonic goes through the instruction table after its operand
    count (`checkOps`) and its register syntax (`getReg`) are checked.

  An LDI operand that is not a number becomes a `sym:LABEL` placeholder.
- **Pass 2** runs when the input ends. It writes the code list, replacing each
  placeholder by `p8` of the label's address. A placeholder whose label was
  never defined stops the run with exit status 2.

Modules, in dependency order:

| module | file | what it holds |
|---|---|---|
| `Wrappers` | wrappers.dfy | `Option`, `Result`, and `Outcome`, a pass/fail status for methods that update state |
| `Text` | text.dfy | comment stripping, `trim`, `toUpperCase`, and the classes `\s` and `\w` |
| `Numbers` | numbers.dfy | `parseInt` with no radix (sign, `0x` prefix, longest digit run), the decimal text of template literals, and the `& 0xff` mask |
| `Binary` | binary.dfy | `toString(2)` and `p8`, both as a function and as the source's padding loop |
| `Records` | records.dfy | the three kinds of entry in the code list (byte, `sym:` placeholder, `# LABEL (addr):` marker) and the fatal errors with their exit statuses |
| `Opcodes` | opcodes.dfy | the instruction table, `checkOps` and `getReg` |
| `Classifier` | classifier.dfy | the line regular expression, as a greedy left-to-right scan, and the `regexDS`/`regexDB` search as written |
| `Encoder` | encoder.dfy | Pass 1 as pure functions: the entries one line adds, and the fold over all lines with its invariant |
| `Resolver` | resolver.dfy | Pass 2: the function, and the method that runs its loop |
| `Assembler` | assembler.dfy | class `Assembly` holding the globals `sym`, `code`, `addr` and `line`, with one method per handler; the driver `Assemble` is proved equal to `Run` |

Design notes:

- **Code-list entries are values, not text.** An entry in the code list is
  kept as a value (`Records.Record`) rather than the text line the source
  pushes. `Resolver.Entry` renders it as that text. `Resolver.EntryPlaceholder`
  shows that Pass 2's `sym:` prefix test and its `trim` pick out exactly the
  placeholders and their labels.
- **The symbol table and the opcode table are Dafny maps.** In the source they
  are plain objects, and the assembler tests them with `in`. That test could
  only differ from a map lookup on an inherited property name such as
  `constructor` or `__proto__`. Every such name has a lower-case letter, while
  labels and opcodes are upper-cased before any lookup.
- **Fatal errors are values.** Each fatal `process.exit` becomes a `Failure`
  value that stops the run. `Abort` wraps it with its 1-based line number. The
  exit statuses are those of the source.
- **Binary literals are not supported.** The header comment of `src/asm.js`
  shows `DB 0b0001` as a binary byte. But `parseInt` has no `0b` prefix: it
  reads the `0` and stops at `b`, so that line emits the byte 0.
  `Encoder.BinaryLiteralData` proves this, and the model keeps the code's
  behaviour.
- **Pass 2 is not all-or-nothing.** It writes each line before it looks at
  the next entry, so the lines before an unknown symbol are already written
  when it exits with status 2 (`Assembler.Run`, `Resolver.ResolvedMeaning`).
  A Pass 1 failure does stop the run before anything is written.

## Model

| member | source | states |
|---|---|---|
| Text.StripComment | src/asm.js:114-118 | The result has no `;`, is a prefix of the line, and when shorter it stops exactly at the first `;` |
| Text.Trim | src/asm.js:120-121 | `trim` keeps a middle slice of the text and removes only whitespace before and after it; the result is empty exactly when the text is all whitespace, and otherwise starts and ends with a non-space |
| Text.TrimMiddle | src/asm.js:120-121 | Trimming the start and then the end cuts off a whitespace prefix and a whitespace suffix and keeps the middle unchanged |
| Text.Upper | src/asm.js:275-281 | Upper-casing keeps the length, and keeps a `\w+` capture a word |
| Text.UpperMeaning | src/asm.js:275-281 | After upper-casing no lower-case letter remains; each lower-case letter becomes its capital and every other character is unchanged |
| Text.UpperUnique | src/asm.js:275-281 | `toUpperCase` gives the one text that has no lower-case letter and equals the input when case is ignored |
| Numbers.ParseInt | src/asm.js:378 | With no radix, text starting with a decimal digit reads as the value of its longest decimal digit run; after a `0x` prefix it reads the hexadecimal digit run, and `NaN` when no hexadecimal digit follows; signed text is stated by `ParseIntSigned` |
| Numbers.ParseSigned | src/asm.js:378 | After a `-` or `+`: a decimal or `0x` literal reads as its value, negated for `-`; no decimal digit after the sign is `NaN`; only `-` gives a negative value |
| Numbers.ParseIntSigned | src/asm.js:378 | On text that starts (after whitespace) with a sign, `parseInt` reads the decimal or `0x` literal after the sign and negates it for `-`, and gives `NaN` when no decimal digit follows the sign |
| Numbers.SignedRoundTrip | src/asm.js:378 | `parseInt` reads `-` followed by the decimal text of `n` as `-n`, whatever non-word text follows |
| Numbers.ParseIntSign | src/asm.js:378 | `parseInt` is negative only after a leading `-`, and gives `NaN` when the trimmed text starts with neither a sign nor a decimal digit |
| Numbers.DecimalRoundTrip | src/asm.js:145 | `parseInt` reads back the decimal text of an address, whatever non-word text follows it |
| Numbers.WordNotNegative | src/asm.js:322-330 | An LDI operand (a `\w+` capture) never reads as a negative number, so `p8` always receives a natural number |
| Numbers.LowByte | src/asm.js:385-386 | `val & 0xff` is below 256, differs from `val` by a multiple of 256, and leaves a byte value unchanged |
| Binary.ToBinary | src/asm.js:263 | `toString(2)` is non-empty binary text with no leading zero except for 0 itself |
| Binary.BinaryRoundTrip | src/asm.js:263 | The value of the binary text of `v` is `v` |
| Binary.Padded | src/asm.js:262-270 | `p8(v)` is binary text of at least eight digits, exactly eight when `v < 256`, and its value is `v` |
| Binary.P8 | src/asm.js:262-270 | The padding loop returns `Padded(v)`: at least eight digits, worth `v` |
| Binary.PadInverse | src/asm.js:262-270 | Re-rendering the value of binary text of width `w`, padded to width `w`, gives back the text, leading zeros included |
| Binary.ByteTextRoundTrip | src/asm.js:262-270 | Every eight-digit binary text is `p8` of its own value |
| Records.Failure.ExitCode | src/asm.js:211-225 | Missing operand, unexpected operand and unknown register exit with 1; every other Pass 1 failure exits with 2 |
| Records.Abort.ExitCode | src/asm.js:193-198 | A Pass 1 failure exits with that failure's own status, and an unknown symbol in Pass 2 exits with 2 |
| Records.LabelAddress | src/asm.js:142-146 | In a well-placed code list, a bound label's address is held by its last marker, and exactly that many bytes come before that marker |
| Opcodes.Arity.Operands | src/asm.js:227-238 | Types 0, 1 and 2 take that many operands and type 8 takes two; only type 0 takes none and only type 1 takes one |
| Opcodes.OpcodeText | src/asm.js:52-76 | Every opcode in the table is eight binary digits worth less than 256, which `p8` renders back unchanged |
| Opcodes.DecodeOpcode | src/asm.js:52-76 | Reading the table backwards maps every opcode byte to its mnemonic |
| Opcodes.OpcodesDistinct | src/asm.js:52-76 | No two mnemonics share an opcode |
| Opcodes.CheckOps | src/asm.js:208-239 | `checkOps` accepts exactly a known mnemonic with the operand count its type demands. It reports an unknown opcode exactly when the mnemonic is not in the table, a missing operand exactly when there are fewer operands, and an unexpected operand exactly when there are more |
| Opcodes.FindRegister | src/asm.js:245 | The search finds the first position from `from` on where `R` followed by a digit from 0 to 7 occurs, or proves there is none |
| Opcodes.GetReg | src/asm.js:244-257 | `getReg` succeeds exactly when `R0`..`R7` occurs anywhere in the operand, and returns the digit of the leftmost occurrence; otherwise it reports an unknown register |
| Classifier.Clean | src/asm.js:114-126 | The cleaned line is a middle slice of the text before the first `;`, with only whitespace removed around it; it is empty exactly when that text is all whitespace, and otherwise starts and ends with a non-space |
| Classifier.Match | src/asm.js:129-132 | The captures are words; a label is the word before the first `:`; operand B implies operand A, and A implies an opcode; the DS/DB argument is a suffix of the line starting with a non-space |
| Classifier.LabelExists | src/asm.js:97 | The label group `(\w+?):` captures exactly when the line starts with a word directly followed by `:` |
| Classifier.MatchLayout | src/asm.js:97 | Any line laid out as optional `LABEL:`, whitespace, optional opcode, optional operand A, and optional `,` operand B, with any whitespace between the parts and any text after them, is matched back to exactly that label, opcode and operands; the DS/DB argument is everything after the opcode and its whitespace |
| Classifier.PseudoDataAsWritten | src/asm.js:100-101 | The unanchored search of `regexDS`/`regexDB`, tried at each position of the line in turn, captures a non-empty suffix of the line when it matches |
| Classifier.PseudoSearch | src/asm.js:100-101 | On a cleaned DS or DB line the search captures the text after the opcode when there is any; otherwise it captures what follows the first `DS` or `DB` inside the label, ignoring case, and finds nothing when the label has no such letters |
| Encoder.Parse | src/asm.js:129-137 | The label, opcode and operands are the captures of the cleaned line upper-cased: equal ignoring case, with no lower-case letter, still words with the same nesting; the DS/DB argument is kept as written; a blank line has neither label nor opcode |
| Encoder.RegisterByte | src/asm.js:296-298 | A register operand emits one unannotated eight-digit byte worth `getReg`'s number; otherwise the result is an unknown register error |
| Encoder.ImmediateMeaning | src/asm.js:320-330 | LDI's operand becomes a `sym:` placeholder exactly when `parseInt` gives `NaN`; otherwise it is a valid byte, with no note, worth the value read |
| Encoder.Out1Records | src/asm.js:295-301 | `out1` emits the opcode byte annotated `OP A` and then exactly `RegisterByte(A)`: `p8` of register A's number, eight digits with no note; or it fails with an unknown register |
| Encoder.Out2Records | src/asm.js:306-315 | `out2` emits the opcode byte annotated `OP A,B` and then exactly `RegisterByte(A)` and `RegisterByte(B)`, each eight digits with no note. Register A is checked first, so an unknown A is the error reported |
| Encoder.Out8Records | src/asm.js:320-337 | `out8` emits the opcode byte annotated `OP A,B`, then exactly `RegisterByte(A)` (eight digits, no note), then the immediate or placeholder that `Immediate` gives |
| Encoder.Instruction | src/asm.js:156-165 | By the instruction's type, it emits the opcode byte alone or exactly what `out1`, `out2` or `out8` emits; that is one entry per operand after an opcode byte that decodes back to the mnemonic, no entry is a marker, every byte is valid, and the only possible failure is an unknown register |
| Encoder.StringBytes | src/asm.js:350-362 | DS emits one byte per character, in order. Each byte's text is `p8` of that character's code (`Padded`: worth the code, eight digits for a code below 256) and is annotated with the character, or with `[space]` for a space |
| Encoder.DataByte | src/asm.js:368-391 | An empty argument gives "missing argument" and `NaN` gives "invalid integer". Otherwise DB emits one eight-digit byte, annotated with the argument, worth the parsed value modulo 256 |
| Encoder.Body | src/asm.js:148-167 | No opcode emits nothing; DS emits its characters or fails on an empty argument; DB emits what `DataByte` says; any other mnemonic emits what `Instruction` says once `checkOps` accepts it, and `checkOps`'s error otherwise; emitted entries are never markers and every byte is valid |
| Encoder.LineRecords | src/asm.js:141-167 | A line's entries start with a marker exactly when the line has a label, and that marker holds the current address. The line fails exactly when its body fails |
| Encoder.LinePlaced | src/asm.js:141-146 | Only a line's first entry can be a marker, and that marker holds the address it is appended at |
| Encoder.BlankLine | src/asm.js:123-126 | A blank or comment-only line emits nothing |
| Encoder.ApplyWellFormed | src/asm.js:86-93 | Appending a line's entries keeps Pass 1's invariant: `addr` counts the bytes, every marker holds its own address, `sym` is what the markers say, and every byte is valid |
| Encoder.Pass1 | src/asm.js:111-175 | Pass 1 over any lines either keeps the invariant or stops at an existing 1-based line number |
| Encoder.Pass1Step | src/asm.js:111-112 | Pass 1 over one more line is the state so far with that line's entries appended, or the failure numbered by that line |
| Encoder.FailureStops | src/asm.js:111-175 | Once a line fails, later lines change nothing: the run reports that first failure |
| Encoder.BlankNoEffect | src/asm.js:123-126 | Appending a blank line to the input changes neither Pass 1's success nor its state |
| Encoder.NegativeData | src/asm.js:378-388 | `DB -1` reads -1 and emits the byte `11111111`, annotated `-1` |
| Encoder.MissingData | src/asm.js:371-374 | A DB line with no argument fails with "missing argument", whatever its label |
| Encoder.BinaryLiteralData | src/asm.js:14 | `DB 0b0001` emits the byte 0, because `parseInt` stops at the `b` |
| Encoder.DataInLabelAsWritten | src/asm.js:101 | For `DB1: DB`, the `regexDB` search captures `1: DB`, which `parseInt` reads as 1 |
| Encoder.DataInLabelCorrected | src/asm.js:368-374 | In the model, `DB1: DB` fails with "missing argument" |
| Resolver.Entry | src/asm.js:145-388 | The text kept in `code`: a byte's line is its digits alone when it has no note, and otherwise its digits, ` # ` and the note; a placeholder is `sym:` and its label; a marker is `# LABEL (` and `):` around the decimal text of its address |
| Resolver.Resolved | src/asm.js:186-202 | Pass 2 as a function: it writes one line per entry when it finishes, and otherwise stops at a placeholder whose label is not in `sym` |
| Resolver.EntryPlaceholder | src/asm.js:190-191 | An entry's text starts with `sym:` exactly when it is a placeholder, and the trimmed rest is its label |
| Resolver.ResolvedMeaning | src/asm.js:186-202 | Pass 2 writes every entry before the stopping placeholder, in order, one line each; without an undefined label it writes them all; it stops exactly at a placeholder whose label is undefined |
| Resolver.ResolvedComplete | src/asm.js:193-198 | Pass 2 finishes exactly when every placeholder names a defined label |
| Resolver.Resolve | src/asm.js:182-203 | The Pass 2 loop writes the lines `Resolved` describes and returns the undefined label it stops at |
| Assembler.Assembly.constructor | src/asm.js:86-93 | A run starts with an empty symbol table, an empty code list, and address and line counters at 0 |
| Assembler.Assembly.Out0 | src/asm.js:286-290 | `out0` appends the opcode byte annotated with the mnemonic and advances the address by one |
| Assembler.Assembly.Out1 | src/asm.js:295-301 | `out1` appends what `Out1Records` says and advances the address by two; on an unknown register it changes nothing and fails |
| Assembler.Assembly.Out2 | src/asm.js:306-315 | `out2` appends what `Out2Records` says and advances the address by three; on an unknown register it changes nothing and fails |
| Assembler.Assembly.Out8 | src/asm.js:320-337 | `out8` appends what `Out8Records` says and advances the address by three; on an unknown register it changes nothing and fails |
| Assembler.ImmediateOperand | src/asm.js:322-330 | The `parseInt`/`isNaN` step produces the immediate entry `Immediate` describes |
| Assembler.Assembly.HandleDS | src/asm.js:342-363 | The character loop appends `StringBytes(data)` and advances the address by the argument's length; an empty argument fails with no change |
| Assembler.Assembly.HandleDB | src/asm.js:368-391 | `handleDB` appends what `DataByte` says and advances the address by one, or fails with `DataByte`'s error and no change |
| Assembler.Assembly.Dispatch | src/asm.js:148-167 | The `switch` appends what `Body` says and advances the address by as many entries; on failure it changes nothing |
| Assembler.Assembly.Handle | src/asm.js:141-167 | The label is recorded and then the body is appended, giving the state `Apply` computes from `LineRecords`; on failure only the label has been recorded |
| Assembler.Assembly.ProcessLine | src/asm.js:111-175 | The line handler always advances `line` by one, and leaves the state `LineRecords` describes or fails with its error |
| Assembler.Assembly.ReadLine | src/asm.js:111-112 | After handling line `i + 1`, the fields hold Pass 1 over the first `i + 1` lines, or the failure is Pass 1's error at that line |
| Assembler.Pass1Advance | src/asm.js:111-175 | One more handled line either extends Pass 1 by that line or ends the whole run with that line's failure |
| Assembler.ReadLines | src/asm.js:111-175 | Feeding every line to the handler succeeds exactly when `Pass1` does, and then leaves its state; otherwise it returns `Pass1`'s error |
| Assembler.Pass2 | src/asm.js:186-202 | Every line written is the resolved text of the entry at that position, and every entry before the stop is resolvable; Pass 2 finishes exactly when every entry is resolvable, and otherwise aborts with the unknown symbol of the placeholder it stops at |
| Assembler.Run | src/asm.js:182-203 | A Pass 1 error writes nothing and aborts with that error; otherwise line `i` of the output is the resolved text of entry `i` of Pass 1's code list, the run finishes exactly when every placeholder names a defined label, and otherwise aborts with the first undefined one |
| Assembler.ExitStatus | src/asm.js:193-198 | The exit status is 0 exactly when the run ends normally, and otherwise the abort's own exit status |
| Assembler.RunStatus | src/asm.js:193-198 | A Pass 1 failure exits with its own status; after Pass 1 the run exits with 0 exactly when every placeholder names a defined label, and with 2 otherwise |
| Assembler.WrittenStatus | src/asm.js:193-198 | When Pass 2 ends as described, its status is 0 exactly when every entry resolves, and 2 otherwise |
| Assembler.Assemble | src/asm.js:182-203 | The driver produces exactly the output and abort of `Run` |
| Assembler.PlaceholderResolution | src/asm.js:190-194 | Every placeholder Pass 2 writes becomes `p8` of its label's address, and that address is the number of bytes before the label's last definition |

## Left out

- Command-line handling (src/asm.js:22-40) is left out: choosing stdin or a file, the output descriptor, and the usage error with exit status 1. It happens before any assembly.
- `readline` input and `fs.writeSync` output are left out. The model takes the input as a sequence of lines and gives the output as a sequence of lines, each line written with a trailing newline in the source.
- Error message texts and their console output are left out. Each failure is kept as a value with its line number and exit status.
- Exit status 3, "No match" (src/asm.js:170-173), is not modelled. Every part of the line regular expression is optional, so it always matches and that branch cannot be reached.
- The non-fatal mode of `getReg` (`fatal=false`) is left out; nothing calls it.
- Characters are treated as ASCII. Unicode whitespace in `trim`, case mapping beyond ASCII in `toUpperCase`, UTF-16 code units of characters outside the basic plane in DS, and `.` refusing to match `\r`, U+2028 and U+2029 are left out.
- Numbers.ParseInt: reads unbounded integers. It does not model the loss of precision above 2^53, or `Infinity` for very long digit runs. `& 0xff` is modelled as the remainder modulo 256, which is what it gives for every safe integer.
- Classifier.Match: models the line regular expression as a greedy scan from the start of the line. That scan is exact because every group of the expression is optional.
- The DS/DB argument: Encoder.Body, Encoder.Pass1, Assembler.Assembly.HandleDS, Assembler.Assembly.HandleDB and Assembler.Run use the corrected argument of the finding below, the text after the opcode. They therefore differ from `src/asm.js` on lines such as `DB1: DB`, which the model rejects with "missing argument".

## Findings

| source | as written | input that shows it | evidently intended | confidence | as-written member | corrected member |
|---|---|---|---|---|---|---|
| src/asm.js:100-101 | `regexDS`/`regexDB` are unanchored and ignore case. When nothing follows the opcode and the label contains the pseudo-op's letters (in any case), they match inside the label instead, so a DB line emits the byte read from the rest of the line | `DB1: DB` emits the byte 1 (argument `1: DB`) | "missing argument to DB", exit status 2 | not executed | Encoder.DataInLabelAsWritten | Encoder.DataInLabelCorrected |
