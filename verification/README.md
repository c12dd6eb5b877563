# CodeTanks interpreter model

CodeTanks lets the player program tanks in a small pseudo-assembly language.
This project models the interpreter that runs those programs. The interpreter
lives in the abstract `Controllable` class, and `Tank` is its only device
handler. Each entity is an immutable state:

- its register bank: device, special and general namespaces, with the program
  counter `PC` in the special namespace;
- its label table, its program text and its halt flag;
- a trace of what it emits: `print` values and the tank's movement effects.

Every operation is a pure function. An operation returns an `Outcome`, either
the new state or a `Fault`. A `Fault` holds the error kind and the state at the
moment of the throw. Writes made before a throw stand, as they do in the C# code.

Modules:

- `Wrappers`: the `Option` and `Result` types.
- `Text`: the .NET string operations the interpreter relies on, as used here.
  These are `Trim` (the .NET white-space set), `Split` on one character,
  `StartsWith`/`EndsWith`, ASCII `ToUpper`/`ToLower`, `Replace(c, "")`, and the
  regular-expression tests `\s` and `\D`.
- `Registers`: the bank, and case-insensitive lookup and write in device,
  special, general order. Also the resets and the general-register generation.
- `Program`: the entity state, the error kinds, `Halt`/`Error`, register access
  with its error path, the code text and its lines, and `Start`.
- `Control`: the line classifier, the program-counter advance loop, the label
  scan, and `GetReadyToExecute`.
- `Dispatch`: argument resolution, label lookup, the shared opcodes,
  `ExecuteLine` with its device fallback, and `Step`.
- `Tank`: the tank's opcodes, its start-up, and its device register.

The advance loop of `IncrementProgramCounter` is modelled as a generic loop
`Run(step, measure, c)`. It is proved once for any step function that lowers a
measure: the remaining line count. `AdvanceProgramCounter` is the same loop
written as a `while` method with its invariant, and it is proved equal to the
functional form.

The code is modelled as written, including these behaviours:

1. `Step` is declared without a result but ends by returning the halt flag. It
   is modelled as returning that flag, which `MainLogic.StepAll` reads
   (`Dispatch.StepLandsOnLine`).
2. Nothing ever clears the halt flag. `GetReadyToExecute` leaves a halted
   entity halted (`Control.GetReadyToExecuteLines`).
3. `GetReadyToExecute` classifies line 0, and may advance the counter, *before*
   it clears the old label table. A throw there leaves the stale table in place
   (`Control.SpacedFirstLineKeepsStaleLabels`).
4. The label scan's non-digit test runs on the line with its colon, and the
   colon is not a digit. So the all-digit error branch can never be taken, and
   `42:` is registered as the label `42` (`Control.DigitLabelAccepted`).
5. A repeated label makes `Dictionary.Add` throw without `Halt`. The model's
   `DuplicateLabel` fault is the one fault whose state is not halted
   (`Control.ScanLabelsFrame`).
6. `GetLineCount` counts the lines of the trimmed text, but `GetLine` indexes
   the untrimmed text. A leading blank line shifts every line by one and makes
   the last line unreachable (`Program.LeadingBlankLineShiftsIndices`).
7. `Step` does not look at the halt flag. Once a program has run off its end,
   the next step fails on an invalid line index (`Dispatch.StepPastEnd`).
8. The tank declares `TurretAngle` under a mixed-case key. Lookups upper-case
   the name, so no instruction can read or write that register
   (`Tank.TurretAngleUnreachable`).

## Model

| member | source | states |
|---|---|---|
| `Registers.IsValid` | Assets/Scripts/Controllables/Controllable.cs:532-554 | `GetRegisterIsValid`: the upper-cased name is a key of some namespace; `Registers.Lookup` and `Registers.Store` succeed exactly for these names, and `Registers.CaseInsensitive` shows the casing is irrelevant |
| `Registers.Lookup` | Assets/Scripts/Controllables/Controllable.cs:557-575 | a name has a value exactly when `GetRegisterIsValid` accepts it; `Registers.LookupMatchesView` states which value |
| `Registers.Store` | Assets/Scripts/Controllables/Controllable.cs:584-615 | a write succeeds exactly for valid names; `Registers.StoreMatchesView`, `Registers.StoreKeepsShape` and `Registers.StoreThenLookup` state what it changes |
| `Registers.LookupMatchesView` | Assets/Scripts/Controllables/Controllable.cs:557-581 | reading a name yields the entry of the device, special, general merge (device wins) at its upper-case form; unknown names read nothing |
| `Registers.CaseInsensitive` | Assets/Scripts/Controllables/Controllable.cs:532-615 | two names with the same upper-case form agree on validity, value and write |
| `Registers.LookupAnyCasing` | Assets/Scripts/Controllables/Controllable.cs:557-561 | a lower-cased or upper-cased token resolves to the same register as the name |
| `Registers.StoreMatchesView` | Assets/Scripts/Controllables/Controllable.cs:584-615 | a write changes the merged view at that one name, in the first namespace holding it, and leaves the other namespaces alone |
| `Registers.StoreKeepsShape` | Assets/Scripts/Controllables/Controllable.cs:584-615 | a write never adds or removes a register in any namespace |
| `Registers.StoreThenLookup` | Assets/Scripts/Controllables/Controllable.cs:584-615 | after writing `v`, the register reads `v` and every register with another upper-case name reads as before |
| `Registers.StoreSame` | Assets/Scripts/Controllables/Controllable.cs:584-615 | writing back the current value leaves the bank unchanged |
| `Registers.StoreTwice` | Assets/Scripts/Controllables/Controllable.cs:584-615 | of two writes to one register only the second shows |
| `Registers.ResetAll` | Assets/Scripts/Controllables/Controllable.cs:127-131 | every namespace keeps its keys, and every valid name, `PC` included, reads 0 |
| `Registers.ResetRegisters` | Assets/Scripts/Controllables/Controllable.cs:134-139 | the key-by-key loop keeps the key set and leaves every value 0 |
| `Registers.ResetAllRegisters` | Assets/Scripts/Controllables/Controllable.cs:127-131 | resetting the three namespaces one by one gives `ResetAll` |
| `Registers.GenerateGeneralRegisters` | Assets/Scripts/Controllables/Controllable.cs:38-41 | the loop creates exactly `R0` to `R(count-1)`, each 0 |
| `Registers.DefaultGeneralNames` | Assets/Scripts/Controllables/Controllable.cs:27 | with the default count of 4 the general registers are exactly R0, R1, R2, R3 |
| `Program.Halt` | Assets/Scripts/Controllables/Controllable.cs:156-159 | the entity is halted afterwards and nothing else changes |
| `Program.Error` | Assets/Scripts/Controllables/Controllable.cs:116-124 | a failure whose state is the entity halted; `Program.GetRegisterValue`, `Dispatch.BasicOperationsKeepProgram` and `Control.ScanLabelsFrame` state that every fault but a repeated label carries this halted state |
| `Program.GetRegisterValue` | Assets/Scripts/Controllables/Controllable.cs:557-581 | succeeds exactly for valid names, with the looked-up value; an unknown name halts with `UnknownRegister` |
| `Program.SetRegisterValue` | Assets/Scripts/Controllables/Controllable.cs:584-615 | succeeds exactly for valid names and then changes only the bank; an unknown name halts with `UnknownRegister` |
| `Program.Trunc` | Assets/Scripts/Controllables/Controllable.cs:60 | the `(int)` cast truncates toward zero: the integer within 1 of the value on the zero side |
| `Program.SetCode` | Assets/Scripts/Controllables/Controllable.cs:147-153 | the stored text holds no carriage return, keeps every other character with its count, and nothing else changes |
| `Program.GetCode` | Assets/Scripts/Controllables/Controllable.cs:142-144 | the stored text; `Program.SetCodeThenGetCode` states what reads back after `SetCode` |
| `Program.SetCodeThenGetCode` | Assets/Scripts/Controllables/Controllable.cs:142-153 | text without carriage returns reads back verbatim; a Windows line ending reads back as one newline |
| `Program.GetLineCount` | Assets/Scripts/Controllables/Controllable.cs:162-169 | at least one line, even for empty text; how the count relates to the lines is stated by `Program.LineCountBound` and `Program.GetLine` |
| `Program.LineCountBound` | Assets/Scripts/Controllables/Controllable.cs:162-185 | every index below the line count is a line of the untrimmed text |
| `Program.GetLine` | Assets/Scripts/Controllables/Controllable.cs:172-185 | succeeds exactly for indices in `[0, GetLineCount)`; any other index halts with `InvalidLineIndex` |
| `Program.LeadingBlankLineShiftsIndices` | Assets/Scripts/Controllables/Controllable.cs:162-185 | with a blank first line the count is 1, line 0 is empty, and the one real line is out of range |
| `Program.Initial` | Assets/Scripts/Controllables/Controllable.cs:10-30 | the state the field initialisers give: only `PC`, at 0, no labels, empty text, not halted |
| `Program.Start` | Assets/Scripts/Controllables/Controllable.cs:33-51 | a new entity gets exactly `PC` and R0 to R3, all 0, no labels, not halted, and the script text without carriage returns |
| `Control.IsLineExecutable` | Assets/Scripts/Controllables/Controllable.cs:188-223 | not executable past the end; fatal for negative indices and for a non-comment colon line with white space; otherwise executable exactly for a non-empty line that is neither a comment nor a label |
| `Control.ClassifierVerdict` | Assets/Scripts/Controllables/Controllable.cs:188-223 | the classifier's verdicts match the text-only predicates `Skipped` and `Executable` in both directions |
| `Control.SkipStep` | Assets/Scripts/Controllables/Controllable.cs:232-243 | one pass of the skip loop; a pass that goes on lowers the remaining line count, so the loop terminates; `Control.SkipStepMovesCounter` and `Control.SkipStepFollowsLines` state what a pass does |
| `Control.IncrementProgramCounter` | Assets/Scripts/Controllables/Controllable.cs:226-245 | the advance; without a `PC` register it throws `UnknownRegister` with the entity halted; the rest of its contract is stated by `Control.IncrementProgramCounterFrame`, `Control.IncrementProgramCounterKeepsRegisters`, `Control.IncrementProgramCounterLands`, `Control.IncrementProgramCounterLines` and `Control.AdvanceProgramCounter` |
| `Control.RunFrame` | Assets/Scripts/Controllables/Controllable.cs:233-243 | a loop whose passes each move the counter by 1 ends with the counter raised by its pass count and nothing else changed but the halt flag |
| `Control.RunSkips` | Assets/Scripts/Controllables/Controllable.cs:233-243 | every line the loop passes over before it stops is a skipped line |
| `Control.RunLines` | Assets/Scripts/Controllables/Controllable.cs:233-243 | the loop stops on an executable line with the halt flag untouched, or on a skipped line at or past the line count with the entity halted; it throws only on a line that is neither, with `MalformedLabel` or `InvalidLineIndex` |
| `Control.AdvanceWhileFrame` | Assets/Scripts/Controllables/Controllable.cs:233-243 | the skip loop of the interpreter moves the counter by its pass count and changes nothing else but the halt flag; a throw carries that moved state halted |
| `Control.AdvanceWhileLines` | Assets/Scripts/Controllables/Controllable.cs:233-243 | the skip loop of the interpreter passes over skipped lines only, and stops on an executable line with the halt flag untouched, or past the end halted |
| `Control.IncrementProgramCounterFrame` | Assets/Scripts/Controllables/Controllable.cs:226-245 | the counter rises by at least 1, and only the counter and the halt flag change; a throw halts |
| `Control.IncrementProgramCounterKeepsRegisters` | Assets/Scripts/Controllables/Controllable.cs:226-245 | a completed advance keeps the trace, text and label table, and every register other than `PC` reads as before |
| `Control.IncrementProgramCounterLands` | Assets/Scripts/Controllables/Controllable.cs:226-245 | a completed advance keeps the text and labels and leaves `PC` on an executable line with the halt flag untouched, or at or past the line count with the entity halted |
| `Control.IncrementProgramCounterLines` | Assets/Scripts/Controllables/Controllable.cs:226-245 | every line passed over is skippable; the counter ends on an executable line with halt unchanged, or at or past the line count with halt set; only a classifier or line-index fault can throw |
| `Control.AdvanceProgramCounter` | Assets/Scripts/Controllables/Controllable.cs:226-245 | the `while` loop, with its measure and invariant, computes the same outcome as the functional advance |
| `Control.ColonLineHasNonDigit` | Assets/Scripts/Controllables/Controllable.cs:83 | the non-digit test always passes on a colon-terminated line |
| `Control.DigitLabelAccepted` | Assets/Scripts/Controllables/Controllable.cs:77-101 | a line of digits and a colon, such as `42:`, is registered under its digits at its index |
| `Control.ScanLabels` | Assets/Scripts/Controllables/Controllable.cs:65-111 | the label scan; its contract is stated by `Control.ScanLabelsFrame`, `Control.ScanLabelsTable` and `Control.ScanLabelsSucceeds` |
| `Control.ScanLabelsFrame` | Assets/Scripts/Controllables/Controllable.cs:65-111 | the scan changes only the label table; a `MalformedLabel` fault carries the entity halted, a `DuplicateLabel` fault keeps the halt flag; which line raises which kind is stated by `Control.ScanLabelsSucceeds` |
| `Control.ScanLabelsTable` | Assets/Scripts/Controllables/Controllable.cs:65-111 | a successful scan yields exactly the text's label declarations, upper-cased without colon, each at its own index |
| `Control.ScanLabelsSucceeds` | Assets/Scripts/Controllables/Controllable.cs:65-111 | the scan succeeds exactly when no line is a spaced colon line and no label is declared twice; on a text with distinct labels a failure is `MalformedLabel` with the entity halted, and on a text without spaced colon lines it is `DuplicateLabel` with the halt flag kept |
| `Control.TableHasDistinctLabels` | Assets/Scripts/Controllables/Controllable.cs:93 | a table holding every declaration at its own line implies no label is declared twice |
| `Control.LabelLineNotExecuted` | Assets/Scripts/Controllables/Controllable.cs:188-223 | a line the label table points to is passed over by the classifier, never executed |
| `Control.MoveToFirstLine` | Assets/Scripts/Controllables/Controllable.cs:59-62 | the first half of the preparation; its contract is stated by `Control.MoveToFirstLineFrame` and `Control.MoveToFirstLineLines` |
| `Control.GetReadyToExecute` | Assets/Scripts/Controllables/Controllable.cs:54-113 | the preparation for a run; its contract is stated by `Control.GetReadyToExecuteState`, `Control.GetReadyToExecuteZeroes`, `Control.GetReadyToExecuteLines` and `Control.SpacedFirstLineKeepsStaleLabels` |
| `Control.MoveToFirstLineFrame` | Assets/Scripts/Controllables/Controllable.cs:59-62 | moving to the first line changes only the counter and the halt flag; a throw halts |
| `Control.MoveToFirstLineLines` | Assets/Scripts/Controllables/Controllable.cs:59-62 | from counter 0, every earlier line is skippable and the counter sits on an executable line or past the end, halted |
| `Control.GetReadyToExecuteState` | Assets/Scripts/Controllables/Controllable.cs:54-111 | a successful preparation keeps the text and trace, rebuilds the label table as exactly the text's labels, and leaves the reset bank with only the counter moved |
| `Control.GetReadyToExecuteZeroes` | Assets/Scripts/Controllables/Controllable.cs:57 | after preparation every namespace keeps its keys and every register other than `PC` reads 0 |
| `Control.GetReadyToExecuteLines` | Assets/Scripts/Controllables/Controllable.cs:54-111 | after preparation the counter is on the first executable line or past the end, halted; every throw but a repeated label halts; a halted entity stays halted |
| `Control.SpacedFirstLineKeepsStaleLabels` | Assets/Scripts/Controllables/Controllable.cs:60-65 | a spaced colon line at index 0 throws before the label table is cleared, so the old table survives |
| `Dispatch.GetArgumentValue` | Assets/Scripts/Controllables/Controllable.cs:248-269 | succeeds exactly when the token names a register or parses; a register's value takes precedence over the literal; otherwise it halts with `InvalidArgument` |
| `Dispatch.RegisterBeforeLiteral` | Assets/Scripts/Controllables/Controllable.cs:251-254 | for a register name the parser is never consulted |
| `Dispatch.GetLabelLineNumber` | Assets/Scripts/Controllables/Controllable.cs:272-289 | succeeds exactly when the upper-cased name is a label, with its line; otherwise it halts with `InvalidLabelReference` |
| `Dispatch.LabelReferenceFindsDeclaration` | Assets/Scripts/Controllables/Controllable.cs:272-289 | against a table the label scan built, a reference resolves exactly when some line declares the upper-cased name, and it resolves to that line's index |
| `Dispatch.HandleBasicOperations` | Assets/Scripts/Controllables/Controllable.cs:292-485 | declines exactly the opcodes outside print, copy, add, sub, mult, div, pow, mod, br |
| `Dispatch.BasicArityChecked` | Assets/Scripts/Controllables/Controllable.cs:304-479 | a shared opcode with the wrong token count halts with `ArgumentCountMismatch`, with the entity otherwise unchanged; other opcodes are declined unchanged |
| `Dispatch.BasicOperationsKeepProgram` | Assets/Scripts/Controllables/Controllable.cs:292-485 | the shared opcodes keep the text, labels and halt flag; every throw leaves the entity as it was, only halted |
| `Dispatch.PrintRecordsValue` | Assets/Scripts/Controllables/Controllable.cs:304-317 | `print` succeeds exactly when its operand resolves, records its value and writes no register |
| `Dispatch.WritesOnlyDestination` | Assets/Scripts/Controllables/Controllable.cs:321-460 | `copy` and the arithmetic opcodes succeed exactly when operands and destination resolve, and then change only the destination register, to the computed value |
| `Dispatch.BranchMovesCounter` | Assets/Scripts/Controllables/Controllable.cs:464-479 | `br` succeeds exactly for a known label, and then sets only the counter, to the label's line; an unknown label halts |
| `Dispatch.Tokens` | Assets/Scripts/Controllables/Controllable.cs:494-499 | a line always yields at least one token; `Dispatch.TokensCharacterised` states which tokens |
| `Dispatch.TokensCharacterised` | Assets/Scripts/Controllables/Controllable.cs:494-499 | the tokens are exactly the space-free pieces that, glued back with single spaces, give the lower-cased and trimmed line |
| `Dispatch.ExecuteLine` | Assets/Scripts/Controllables/Controllable.cs:491-516 | an index outside the line range halts with `InvalidLineIndex`; the rest of its contract is stated by `Dispatch.ExecuteLineDispatch` and `Dispatch.ExecuteLineKeepsProgram` |
| `Dispatch.ExecuteLineDispatch` | Assets/Scripts/Controllables/Controllable.cs:491-516 | the device handler sees only lines the shared dispatcher declines; a line both decline halts with `InvalidOpcode` |
| `Dispatch.ExecuteLineKeepsProgram` | Assets/Scripts/Controllables/Controllable.cs:491-516 | with a well-behaved device, a line keeps the text, labels and halt flag, and any throw leaves the entity as it was, halted |
| `Dispatch.Step` | Assets/Scripts/Controllables/Controllable.cs:519-529 | without a `PC` register the step halts with `UnknownRegister`; a successful step returns the entity's halt flag; the rest is stated by `Dispatch.StepSkipsAdvanceOnError`, `Dispatch.StepAfterLine`, `Dispatch.StepPastEnd` and `Dispatch.StepLandsOnLine` |
| `Dispatch.StepSkipsAdvanceOnError` | Assets/Scripts/Controllables/Controllable.cs:519-529 | a fatal line ends the step with its fault, and the counter is not advanced |
| `Dispatch.StepAfterLine` | Assets/Scripts/Controllables/Controllable.cs:522-525 | after a line that completes, the step fails exactly when the advance fails, with its fault; a successful step keeps the line's trace, text, labels and every non-`PC` register as the line left them |
| `Dispatch.StepPastEnd` | Assets/Scripts/Controllables/Controllable.cs:519-529 | a step with the counter at or past the line count halts with `InvalidLineIndex`, halted or not |
| `Dispatch.StepLandsOnLine` | Assets/Scripts/Controllables/Controllable.cs:519-529 | a successful step returns the halt flag and leaves the counter on an executable line, or past the end with the entity halted |
| `Tank.HandleDeviceOperations` | Assets/Scripts/Tank/Tank.cs:22-101 | declines exactly the opcodes outside rotateturret, forward, backward, turnleft, turnright; a completed opcode changes only the trace; a throw leaves the entity as it was, halted |
| `Tank.Device` | Assets/Scripts/Tank/Tank.cs:22 | the tank's handler as the interpreter calls it; `Tank.DeviceWellBehaved` shows it meets the device contract |
| `Tank.TankOpcodes` | Assets/Scripts/Tank/Tank.cs:24-97 | `rotateturret` takes 2 tokens and the movement opcodes 1, else `ArgumentCountMismatch`; a bad angle halts with `InvalidArgument`; each records exactly one effect |
| `Tank.DeviceWellBehaved` | Assets/Scripts/Tank/Tank.cs:22-101 | the tank handler satisfies the device contract the interpreter's frame lemmas assume |
| `Tank.TankLineDispatch` | Assets/Scripts/Tank/Tank.cs:22-101 | a tank opcode the shared dispatcher declines is run by the tank handler, and an opcode neither knows halts with `InvalidOpcode` |
| `Tank.Start` | Assets/Scripts/Tank/Tank.cs:104-112 | a new tank has the device register `TurretAngle` and the valid names PC and R0 to R3, all reading 0 |
| `Tank.TurretAngleUnreachable` | Assets/Scripts/Tank/Tank.cs:108-110 | no instruction name resolves to the mixed-case `TurretAngle` key, and no write changes it |

## Left out

- Float arithmetic: registers hold exact `real` values.
  - `add`, `sub` and `mult` are exact.
  - `div`, `Mathf.Pow`, `%` and `float.Parse` are parameters (`Dispatch.FloatOps`).
  - IEEE rounding, infinities and NaN are not modelled.
  - The cast of a label's line number to `float` is exact.
- Unity side effects: the tank's transform moves and turret rotation are `Effect` events in the trace, with the tank's speeds as arguments. The scene itself is not modelled.
- `Debug.Log`: the `print` output becomes a `Printed` event. The label-scan log lines and the "Jumping to line" line that `br` logs before it jumps (Controllable.cs:474) are not modelled.
- Self-registration with `GameObject.Find("GameLogic")` in `Start` is not modelled.
- Loading the script from the `AI` component is not modelled. `Start` takes the script, if any, as a parameter.
- Exception message text is not modelled, only the error kind.
  - The message of `Error` reads `PC`. With no `PC` register, that read would itself call `Error` again; this recursion is not modelled.
- `MainLogic` and `EditorLogic` are not part of this model. They only call `SetCode`, `GetReadyToExecute` and `Step`, and `StepAll` stops at the first entity whose step reports halt.
- Character handling: `ToUpper`/`ToLower` map ASCII letters only, and no culture-specific case mapping is modelled. The label pattern's `\d` is modelled as the ASCII digits `0` to `9`, where .NET also matches every other Unicode decimal digit; this changes no outcome, because the non-digit test only runs on colon-terminated lines (`Control.ColonLineHasNonDigit`), and a colon is never a digit.
- Text.StartsWith: `line.StartsWith("#")` is modelled as an ordinal comparison of the first character. The .NET string overload compares by the current culture and skips ignorable characters, so a line such as a soft hyphen followed by `#` is a comment in C# but code here.
- Text.EndsWith: `line.EndsWith(":")` is likewise modelled as an ordinal comparison of the last character; a label line ending in an ignorable character after the colon is a label in C# but not here.
- Program.Trunc: the `(int)` cast is modelled as unbounded truncation toward zero. In C# the result is an `int`, and a value outside its range gives an unspecified result (`int.MinValue` on x86 and x64). So a counter of 3000000000, set by `copy 3000000000 pc`, makes C# fail on an invalid line index, while the model finds it past the end and halts without a fault.
- `Program.GetLineCount`: its contract states only that the count is at least 1. How the count relates to the lines is stated by `Program.LineCountBound` and `Program.GetLine`.
