# debag core, modelled in Dafny

debag is a small x86-64 Linux source-level debugger. It drives a traced child
process, arms software breakpoints by writing the one-byte `INT3` opcode (0xCC)
over the low byte of the word at an address, steps by instruction and by source
line, and reads the debuggee's DWARF line, function and frame tables. Its watch
window lexes and parses small expressions such as `arr[3]`.

This project models:

- the debugger's bookkeeping and decisions, over an abstract debuggee;
- debuggee memory as a map from address to 64-bit word, each word split into its
  low byte and its upper seven bytes;
- the register file as a record;
- each stop the debuggee reports (the `waitpid` status, the `siginfo` code and
  the register file) as an input value.

| module | what it holds |
|---|---|
| `Wrappers` | `Option`, `Result` and `Outcome` |
| `Machine` | 64-bit words, memory words, peek and poke, the register record |
| `CStrings` | the NUL-terminated string helpers and hexadecimal parsing |
| `Breakpoints` | the breakpoint record, arming and disarming, lookup, trap masking |
| `Symbols` | register numbering, line and function tables, the entry point, the current line's range, CFA |
| `SourceFiles` | the source-file table (a class) |
| `LinePlan` | where `ToNextLine` plants temporary traps, and how they are retired |
| `Flow` | the stepping state machine: a `Debugger` class over memory, registers and the breakpoint table |
| `WatchLexer` | the watch-expression lexer (a `Lexer` class) |
| `WatchParser` | the watch-expression parser (a `Parser` class) |

Code that updates state in place is written as methods:

- the breakpoint and stepping routines;
- the lexer and the parser;
- the source-file table;
- the string loops.

Each method is proved against a specification function. The properties are
proved as lemmas about those functions:

- the exact effect of arming and of disarming;
- the first-match lookups, in both directions;
- the traps `ToNextLine` plants, each justified by its instruction;
- memory restored after `ToNextLine`;
- the lexer round trip: every well-formed expression lexes to tokens that spell
  it back;
- the parser round trip: the tokens of every well-formed tree parse back to it.

In four places the code does not do what the debugger evidently means to do:

- Function names are meant to match exactly, but `StringsMatch` is a prefix test.
- Temporary breakpoints are meant to be fully retired, but the retire loop can
  leave a trap armed.
- The lexer gives `')'` the token of `'('`.
- The lexer writes the first digit of a literal twice after a `'-'` and drops
  the sign.

The operations (`FindEntryPointAddress`, `Debugger.ToNextLine`, the `Lexer`
class) follow the code as written. Each defect is recorded as a finding below,
and a corrected definition is proved beside it:

- `FindEntryPointExact` for the entry point;
- `ToNextLineSpec(MostRecentFirst, ...)` for retirement;
- the `Corrected` reading of the lexer, under which `LexRenderRoundTrip` holds.

Lemmas relate each as-written definition to its corrected one.

## Model

| member | source | states |
|---|---|---|
| Machine.ValueOf | flow.cpp:96-109 | the `u64` of a memory word has the word's low byte as `w & 0xff` and its upper seven bytes as `w >> 8` |
| Machine.WordOf | flow.cpp:103-107 | splitting a `u64` into low byte and upper bytes gives a word holding that same value |
| Machine.WordOfValue | flow.cpp:103-107 | splitting is a bijection: the word rebuilt from a word's value is that word |
| Machine.PeekFailedIsAllOnes | debag.cpp:320-327 | a failed `PTRACE_PEEKDATA` yields -1, the all-ones `u64` |
| Machine.Peek | debag.cpp:320-327 | a mapped address yields its word, an unmapped one all ones |
| Machine.Poke | flow.cpp:108 | a write replaces the word at a mapped address and never adds or removes an address |
| Machine.Wrap | flow.cpp:34 | `u64` arithmetic wraps modulo 2^64 and leaves in-range values alone |
| Machine.AddressBetween | flow.cpp:1-9 | the closed interval test `Lower <= Address <= Upper`; the contracts of `FindFunctionFrom` and `InSomeCompileUnit` state what it selects |
| CStrings.CharInString | debag.cpp:42-54 | true exactly when the character occurs before the terminator |
| CStrings.StringCountChar | debag.cpp:57-70 | the number of occurrences of the character, reduced modulo 2^32 by the `u32` counter |
| CStrings.StringCopy | debag.cpp:73-83 | the destination starts with the source and a terminator; every cell after that is unchanged |
| CStrings.StringsMatch | debag.cpp:86-102 | false exactly when the strings differ at an index before either ends |
| CStrings.StringsMatchIsPrefixRelation | debag.cpp:86-102 | `StringsMatch` holds exactly when one string is a prefix of the other; it is symmetric, reflexive and true with the empty string |
| CStrings.FindFirstX | debag.cpp:109-114 | the scan stops at the first `'x'` of the string |
| CStrings.DigitValue | debag.cpp:119-128 | a character is accepted exactly when it is a hex digit of either case, and then gives that digit's value |
| CStrings.AccumulateHex | debag.cpp:116-132 | succeeds exactly when every remaining character is a hex digit, and then yields their base-16 value modulo 2^64 |
| CStrings.HexStringToInt | debag.cpp:105-135 | succeeds exactly when every character after the first `'x'` is a hex digit of either case, and then yields their base-16 value modulo 2^64; any other character is the assertion failure |
| CStrings.HexDigitValue | debag.cpp:118-131 | a digit's value is below 16; letters count case-insensitively |
| CStrings.IndexOf | debag.cpp:109-114 | the first position of the character: it is there and not before |
| CStrings.HexDigits | debag.cpp:1008-1015 | a reference printer for the hexadecimal addresses typed into the Break box, which `HexRoundTrip` parses back: it gives a non-empty string of hex digits with no `'x'` and no terminator |
| CStrings.HexValueOfDigits | debag.cpp:105-135 | the value of a number's printed digits is the number |
| CStrings.HexRoundTrip | debag.cpp:1013-1015 | a `u64` printed as `0x` and hex digits parses back to the same `u64` |
| Breakpoints.BreakpointCreate | flow.cpp:82-94 | the record has the given address and pid and is disabled, with a zero saved byte and a clear toggle; no memory is involved |
| Breakpoints.ArmedMemory | flow.cpp:96-109 | enabling writes 0xCC into the low byte at the address, keeps that word's upper seven bytes and the mapped addresses |
| Breakpoints.Armed | flow.cpp:96-109 | the enabled record saves the low byte that was at its address and keeps address, pid and toggle |
| Breakpoints.DisarmedMemory | flow.cpp:111-118 | disabling writes the saved byte back under the word's current upper bytes |
| Breakpoints.EnableDisableRoundTrip | flow.cpp:96-118 | enable then disable of the same record restores every word of memory exactly |
| Breakpoints.DisableEnableRoundTrip | flow.cpp:96-118 | with the trap in place, disable then enable restores memory, and the record saves the same byte again |
| Breakpoints.DoubleEnableSavesTrap | flow.cpp:96-118 | a second enable at an armed address saves 0xCC, so disabling that record leaves the trap in memory |
| Breakpoints.FirstEnabledFrom | flow.cpp:56-69 | an index found matches the address and pid and is enabled |
| Breakpoints.FirstEnabledFromIsFirst | flow.cpp:56-69 | no earlier record matches, and nothing is found exactly when no record matches |
| Breakpoints.FirstEnabledAt | flow.cpp:56-69 | `BreakpointFind` over the whole table: an index found is inside the table and its record is enabled, at the address, for the pid; `FoundIsEnabled` states when one is found |
| Breakpoints.FoundRecord | flow.cpp:56-69 | the record `BreakpointFind` points to, or null; `FoundIsEnabled` states what it is |
| Breakpoints.BreakpointEnabled | flow.cpp:71-80 | a non-null, enabled record; `FoundIsEnabled` states that applied to the lookup it holds exactly when an enabled matching record exists |
| Breakpoints.FoundIsEnabled | flow.cpp:56-80 | `BreakpointEnabled` of the record the lookup yields holds exactly when an enabled record at the address for the pid exists; the lookup finds a record exactly then, and what it finds is enabled, at the address, for the pid |
| Breakpoints.MaskedWord | debag.cpp:338-344 | with an enabled breakpoint at the address the low byte is its saved byte and the upper seven bytes are those in memory; with none the word is untouched |
| Breakpoints.MaskUndoesArm | debag.cpp:338-344 | after a breakpoint is enabled and recorded, the decoder sees the original word |
| Symbols.GetRegisterByABINumber | debag.cpp:154-195 | a register is returned exactly for the numbers 0 to 15 |
| Symbols.RegisterLookupFollowsABI | debag.cpp:154-195 | each number maps to the psABI's register (rax, rdx, rcx, rbx, rsi, rdi, rbp, rsp, r8 to r15); distinct registers have distinct numbers, and every number found names one |
| Symbols.FindByAddressFrom | debag.cpp:198-215 | the first entry that is an exact hit or lies strictly below the address with the next entry strictly above it; none when no entry covers |
| Symbols.FindByAddressWithinEntry | debag.cpp:198-215 | in a sorted table, an address from the first entry at an address up to before the next entry's address finds that entry; it is stated for every entry but the last, which has no next entry and is found only by an exact hit |
| Symbols.FindByAddressOutside | debag.cpp:198-215 | in a sorted table, an address above the last entry or below the first finds nothing |
| Symbols.LineTableFindByAddress | debag.cpp:198-215 | over the whole table: the first covering entry, none before it covers, and none is found exactly when no entry covers |
| Symbols.FindByLineNumFrom | debag.cpp:218-229 | the first entry with the line number, or none when there is no such entry |
| Symbols.LineTableFindByLineNum | debag.cpp:218-229 | over the whole table: the first entry with the line number, and none exactly when no entry has it |
| Symbols.LineAddressRangeBetween | debag.cpp:231-240 | the range from one entry's address to another's; `CurrentLineRange` states the range it gives |
| Symbols.FindFunctionFrom | debag.cpp:243-257 | the first function whose closed `[LowPC, HighPC]` holds the address, or none |
| Symbols.FindFunctionConfiningAddress | debag.cpp:243-257 | over the whole table: the first function whose closed interval holds the address, and none exactly when no function's does |
| Symbols.FindNamedFrom | debag.cpp:535-549 | the first function whose name `StringsMatch`es, or none |
| Symbols.FindEntryPointAddress | debag.cpp:535-549 | the low pc of the first function whose name `StringsMatch`es "main", and 0 when none does |
| Symbols.EntryPointPrefixMatch | debag.cpp:535-549 | a function named "mainloop", or one with an empty name, listed before `main` is taken as the entry point |
| Symbols.FindExactFrom | debag.cpp:535-549 | the first function whose name equals the name, or none |
| Symbols.FindEntryPointExact | debag.cpp:535-549 | the low pc of the first function named exactly "main", and 0 when there is none |
| Symbols.EntryPointExactIgnoresOthers | debag.cpp:535-549 | functions not named "main" listed first do not move the exact entry point |
| Symbols.FirstAtAddress | debag.cpp:503-505 | the outer scan stops at the first entry whose address is the current entry's |
| Symbols.NextLineFrom | debag.cpp:506-524 | the inner scan finds the first later entry, before the last index, with another line number |
| Symbols.CurrentLineRange | debag.cpp:498-532 | an empty table gives the zeroed range `[0, 0]`, as the loops never run; in a table with entries, no covering entry is a fault; otherwise the start is the covering entry's address, and the end is the first differing line's address, or the confining function's high pc when the scan reaches the last index |
| Symbols.CurrentLineRangeOrdered | debag.cpp:498-532 | in a sorted table a range is never inverted: its start is at most its end, and in a table with entries it starts at the covering entry's address |
| Symbols.AddressRangeCurrentAndNextLine | debag.cpp:498-532 | the two nested loops compute exactly `CurrentLineRange` |
| Symbols.FirstFdeFrom | debag.cpp:893-902 | the first FDE whose bytes `LowPC` to `LowPC + Length - 1` (in `u64`) hold the pc, or none |
| Symbols.DWARFGetCFA | debag.cpp:890-921 | fails for want of an FDE exactly when no FDE's bytes hold the pc |
| Symbols.CfaFromFirstCoveringFde | debag.cpp:890-921 | with the first covering FDE known: a rule that is not register plus offset fails, a register number of 16 or more fails, and otherwise the CFA is that register's value plus the offset modulo 2^64 |
| Symbols.HighPcValue | debag.cpp:590-599 | a constant-class `DW_AT_high_pc` is an offset from the low pc; an address-class value is the address itself |
| SourceFiles.FindPathFrom | debag.cpp:428-442 | the first file whose path `StringsMatch`es, and none when no file matches |
| SourceFiles.FindPath | debag.cpp:428-442 | `FindSourceFile` over the whole table: the index of the first file whose path `StringsMatch`es, and none exactly when no file matches |
| SourceFiles.Associate | debag.cpp:474-495 | a matching path gives the first match's index with the table unchanged; otherwise exactly one file is appended and its index is the last; earlier entries never change |
| SourceFiles.AssociateIdempotent | debag.cpp:474-495 | asking again for the same path returns the same index and does not grow the table |
| SourceFiles.SourceFileTable.FindSourceFile | debag.cpp:428-442 | the scan returns the first matching file, as `FindPath` does |
| SourceFiles.SourceFileTable.PushSourceFile | debag.cpp:445-456 | appends one file with its newline count and returns its index, the old count |
| SourceFiles.SourceFileTable.GetSourceFile | debag.cpp:459-471 | the table and index are those of `Associate` |
| SourceFiles.SourceFileTable.SrcFileAssociatePath | debag.cpp:474-495 | the table and index are those of `Associate` |
| LinePlan.ClassifyGroups | flow.cpp:200-227 | each flag is set exactly when its group occurs among the instruction's groups |
| LinePlan.Classify | flow.cpp:200-227 | the flags of a group list; `ClassifyGroups` is proved to compute it, each flag set exactly when its group occurs |
| LinePlan.InSomeCompileUnit | flow.cpp:242-251 | true exactly when some compile unit's closed pc interval holds the address |
| LinePlan.Plant | flow.cpp:176-178 | `BreakpointCreate`, `BreakpointEnable` and the append of one temporary trap; `PlantedOverMemory` states its effect on memory and on the saved bytes |
| LinePlan.CallStep | flow.cpp:229-252 | the call check of the loop body; `CallStepSites` states when it fails and which trap it plants |
| LinePlan.RetStep | flow.cpp:254-270 | the return check of the loop body; `RetStepSites` states which trap it plants |
| LinePlan.JumpStep | flow.cpp:272-296 | the relative-jump check of the loop body; `JumpStepSites` states when it fails and which trap it plants |
| LinePlan.PlanInstruction | flow.cpp:198-296 | one pass of the loop body: call, return, then jump check; `PlanInstructionSites` states the traps it appends and its fault |
| LinePlan.CallStepSites | flow.cpp:229-252 | a call fails exactly on a broken operand assertion when stepping into functions, and otherwise appends a trap at its target exactly when the target is in a compile unit |
| LinePlan.RetStepSites | flow.cpp:254-270 | a return appends a trap at `[rbp+8]` exactly when that address is in a compile unit |
| LinePlan.JumpStepSites | flow.cpp:272-296 | a relative jump fails exactly on a broken operand assertion, and otherwise appends a trap at its target exactly when the target is outside `[Start, End]` |
| LinePlan.PlanInstructionSites | flow.cpp:198-296 | one pass of the loop visits the instruction at its address, appends exactly the traps that instruction calls for, and fails exactly on its broken assertion |
| LinePlan.LineFetch | flow.cpp:185-194 | the loop's read: the word at the address with breakpoint bytes masked as `MaskedWord` states, given to the decoder |
| LinePlan.Walk | flow.cpp:183-299 | the planting loop from an address to the range end; `WalkSites`, `WalkChained` and `WalkFaults` state its traps, its visits and its fault |
| LinePlan.LineStepPlants | flow.cpp:198-296 | the loop body of `ToNextLine` is a planting step: it visits, plants and fails as a step must |
| LinePlan.WalkSites | flow.cpp:183-299 | the walk appends, after the traps it started with, exactly the traps its visited instructions call for, in order |
| LinePlan.WalkChained | flow.cpp:183-198 | the visited instructions follow each other from the range start by their sizes, all below the range end |
| LinePlan.WalkFaults | flow.cpp:229-296 | the walk fails exactly at the last visited instruction, when that one breaks an operand assertion, and no earlier one does |
| LinePlan.AllSitesJustified | flow.cpp:229-296 | every trap planted for an instruction is a call target in a compile unit (stepping into functions), a return address in a compile unit, or a jump target outside the range |
| LinePlan.PlanLineSites | flow.cpp:176-299 | a line plan's first trap is at the range end and every later trap is justified by an instruction of the line |
| LinePlan.PlanLine | flow.cpp:173-299 | the planting half of `ToNextLine`: a trap at the range end, then the walk from the range start; `PlanLineSites`, `PlanLinePlantsOver` and `PlantedOverMemory` state what it plants |
| LinePlan.PlantedOverMemory | flow.cpp:176-299 | after planting, each mapped trap address holds 0xCC over its original upper bytes, other words are untouched, every trap is enabled, and a trap saves the original byte unless an earlier trap sits at its address, when it saves 0xCC |
| LinePlan.PlanLinePlantsOver | flow.cpp:176-299 | a line plan, failed part-way or not, is planted over the memory it started from |
| LinePlan.ReverseRetireRestores | flow.cpp:305-309 | disabling the traps most recent first gives back the memory they were planted over |
| LinePlan.PlanThenReverseRetireIsIdentity | flow.cpp:176-309 | planning a line and then retiring its traps in reverse leaves memory exactly as it was |
| LinePlan.RetireInOrder | flow.cpp:305-309 | `BreakpointDisable` on each temporary trap in planting order, as the source does; `InOrderUntouched`, `InOrderLastWins` and `InOrderRestoresDistinct` state its effect |
| LinePlan.RetireInReverse | flow.cpp:305-309 | the corrected retirement, most recent trap first; `ReverseRetireRestores` states its effect |
| LinePlan.InOrderKeepsUpper | flow.cpp:305-309 | retiring in planting order keeps every mapped address and every word's upper seven bytes |
| LinePlan.InOrderRestoresDistinct | flow.cpp:305-309 | retiring in planting order gives back the memory the traps were planted over when no two traps share an address |
| LinePlan.InOrderUntouched | flow.cpp:305-309 | retiring in planting order leaves the words of addresses with no trap untouched |
| LinePlan.InOrderLastWins | flow.cpp:305-309 | retiring in planting order leaves at an address the byte saved by the last trap planted there |
| LinePlan.DuplicateTrapLeftArmed | flow.cpp:305-309 | two traps at one mapped address whose byte is not 0xCC leave 0xCC there after retiring in planting order |
| LinePlan.TwoJumpsTraps | flow.cpp:272-299 | a line holding two relative jumps to one label outside it gets the line-end trap and two traps at the label |
| LinePlan.TwoJumpsToOneLabel | flow.cpp:272-309 | a line with two relative jumps to the same label outside it leaves that label armed after retiring in planting order |
| Flow.WaitForSignalEffect | flow.cpp:11-54 | a `SIGTRAP` with `SI_KERNEL` or `TRAP_BRKPT` moves rip back by exactly one (wrapping at 0) and changes no other register; a `TRAP_TRACE` or any other stop leaves the registers alone; an exit sets the exited flag; memory and breakpoints are unchanged |
| Flow.AfterStop | flow.cpp:11-54 | `WaitForSignal` as a transition; `WaitForSignalEffect` states its effect |
| Flow.StepInstructionSpec | flow.cpp:121-134 | `StepInstruction` as a transition; `StepInstructionTable` and `StepInstructionKeepsTraps` state its effect |
| Flow.ContinueSpec | flow.cpp:154-164 | `ContinueProgram` as a transition; `ContinueKeepsTraps` states its effect |
| Flow.StepLineSpec | flow.cpp:136-152 | `StepLine` as a transition over a finite budget of stops; `StepLineStops` states its effect |
| Flow.Retire | flow.cpp:305-309 | retirement in the source's planting order or most recent first |
| Flow.ToNextLineSpec | flow.cpp:166-310 | `ToNextLine` as a transition, with the retirement order as a parameter; the source's is `PlantingOrder`; `ToNextLineInOrder` and `ToNextLineRestoresMemory` state its effect |
| Flow.StepInstructionTable | flow.cpp:121-134 | the breakpoint found at rip has its toggle negated and stays enabled at rip; every other record is unchanged; with none found the table and memory are unchanged; the registers are those the stop reports |
| Flow.StepInstructionKeepsTraps | flow.cpp:121-134 | with every trap in place, a single step leaves memory unchanged and keeps each trap and each saved byte |
| Flow.StepsKeepTraps | flow.cpp:136-152 | any number of single steps leaves memory unchanged and every trap in place |
| Flow.ContinueKeepsTraps | flow.cpp:154-164 | continuing leaves memory unchanged and the same breakpoints armed |
| Flow.PlantingKeepsTraps | flow.cpp:176-299 | planting temporary traps keeps the permanent breakpoints' traps in place |
| Flow.ToNextLineRestoresMemory | flow.cpp:166-310 | the corrected half of the retirement finding: with the traps retired most recent first, when `ToNextLine` completes memory is exactly what it was and every trap is in place; with no range the state is unchanged |
| Flow.ToNextLineInOrder | flow.cpp:166-310 | the source's `ToNextLine`, retiring in planting order: with no range the state is unchanged; when it completes and the line's traps lie at distinct addresses memory is restored, and where two traps share a mapped address whose byte was not 0xCC, that address holds 0xCC afterwards |
| Flow.Debugger.WaitForSignal | flow.cpp:11-54 | the new state is `AfterStop` of the old state and the stop |
| Flow.Debugger.BreakpointFind | flow.cpp:56-69 | the loop returns the first enabled record at the address for the pid |
| Flow.Debugger.BreakpointEnable | flow.cpp:96-109 | memory becomes `ArmedMemory` and the record becomes `Armed` |
| Flow.Debugger.BreakpointDisable | flow.cpp:111-118 | memory becomes `DisarmedMemory` and the record is disabled and otherwise unchanged |
| Flow.Debugger.StepInstruction | flow.cpp:121-134 | the new state is `StepInstructionSpec` of the old one |
| Flow.Debugger.StepLine | flow.cpp:136-152 | the new state and the result are those `StepLineSpec` gives for the old state and the stops |
| Flow.StepLineStops | flow.cpp:136-152 | `StepLineSpec` fails, changing nothing, exactly when rip has no line entry; otherwise it stops after the first single step that lands on another line, or when the stops run out, with the state of that many steps, and no earlier step was on another line |
| Flow.StepLineFromRuns | flow.cpp:141-151 | from any stop on, the loop ends right after the first transition that reaches its goal, in the state of that many transitions, or uses every stop without ever reaching it |
| Flow.Debugger.ContinueProgram | flow.cpp:154-164 | the new state is `ContinueSpec` of the old one |
| Flow.Debugger.PlantTemp | flow.cpp:176-178 | creating, enabling and recording a temporary trap is `Plant` |
| Flow.Debugger.PlantInstruction | flow.cpp:198-296 | one pass of the planting loop gives the memory, traps and fault of `PlanInstruction` |
| Flow.Debugger.FetchMasked | flow.cpp:185-194 | the instruction decoded at an address is the one `LineFetch` gives: the word there with a breakpoint's saved byte put back in its low byte |
| Flow.Debugger.PlantLine | flow.cpp:173-299 | the planting loop gives the memory, traps and fault of `PlanLine` |
| Flow.Debugger.RetireTemps | flow.cpp:305-309 | the loop disables the traps in planting order: memory becomes `RetireInOrder` of the traps |
| Flow.Debugger.ToNextLine | flow.cpp:166-310 | the new state and outcome are `ToNextLineSpec(PlantingOrder, ...)` of the old state: the source's range, planting, continue and in-order retirement |
| WatchLexer.TokenKindToString | watch_lang.cpp:1-31 | every kind prints as `TokenKind_` followed by its name |
| WatchLexer.KindNamed | watch_lang.cpp:1-31 | a name read back names a kind that prints as that name |
| WatchLexer.TokenKindNamesDistinct | watch_lang.cpp:1-31 | the printed name gives the kind back, and distinct kinds print differently |
| WatchLexer.CharAt | watch_lang.cpp:50-62 | the character under the cursor is NUL exactly at the end of the string |
| WatchLexer.RunEnd | watch_lang.cpp:113-132 | a run of digits, or of letters and underscores, is taken maximally: every character up to its end belongs to it and the next does not |
| WatchLexer.CloseParenLexesAsOpen | watch_lang.cpp:151-162 | as written, `'('` and `')'` both give `ParenOp` and no character gives `ParenCl` |
| WatchLexer.PunctKindAsWritten | watch_lang.cpp:139-162 | the source's single-character punctuation, `')'` giving `ParenOp`; `CloseParenLexesAsOpen` and `PunctKindInverse` state how it differs from the corrected one |
| WatchLexer.PunctKindInverse | watch_lang.cpp:139-162 | under the corrected mapping each single-character punctuation gives the kind that stands for it, and only those characters give one; the source's mapping agrees with the corrected one at every character except `')'` |
| WatchLexer.MinusDoublesDigit | watch_lang.cpp:103-111 | as written, `-5` and `55` give the same literal text |
| WatchLexer.NumberTextAsWritten | watch_lang.cpp:103-130 | the source's literal text: the first digit written twice after a `'-'`; `MinusDoublesDigit` shows the sign is lost |
| WatchLexer.NumberText | watch_lang.cpp:103-111 | the corrected literal text: the digits, after one `'-'` when a minus is pending |
| WatchLexer.NumberTextInjective | watch_lang.cpp:103-111 | the literal text tells the sign and the digits apart |
| WatchLexer.LexStep | watch_lang.cpp:95-237 | one pass of the loop under either reading moves the cursor forward, stays inside the string, emits at most one token and never EOF |
| WatchLexer.LexFrom | watch_lang.cpp:88-243 | the tokens `LexerBuildTokens` appends from a position on under a reading; `LexEndsWithEOF`, `LexRenderRoundTrip` and `ReadingsAgreeFrom` state what they are |
| WatchLexer.Lex | watch_lang.cpp:88-243 | `LexerBuildTokens` on a whole string under a reading; `LexEndsWithEOF`, `LexRenderRoundTrip`, `AsWrittenRoundTrip` and `AsWrittenExamples` state what it yields |
| WatchLexer.LexEndsWithEOF | watch_lang.cpp:240-242 | under either reading the token queue ends with EOF, and no other token is EOF |
| WatchLexer.LexRenderRoundTrip | watch_lang.cpp:88-243 | the corrected half of the two lexer findings: under the `Corrected` reading a well-formed string lexes without fault, and its tokens spell the string back |
| WatchLexer.AsWrittenExamples | watch_lang.cpp:103-162 | as written, "-5" lexes to the literal "55" and "()" to two `ParenOp` tokens; corrected, to "-5" and to `ParenOp`, `ParenCl` |
| WatchLexer.StepReadingsAgree | watch_lang.cpp:95-237 | away from `')'` and from a digit behind a pending `'-'`, one pass of the loop is the same under both readings |
| WatchLexer.ReadingsAgreeFrom | watch_lang.cpp:88-243 | on a string with no `')'` whose every `'-'` comes right before `'>'`, both readings give the same tokens or the same fault |
| WatchLexer.AsWrittenRoundTrip | watch_lang.cpp:88-243 | the source's lexer spells back every well-formed string with no `')'` and no sign before a literal |
| WatchLexer.UnlexableFails | watch_lang.cpp:234-237 | under either reading a character with no case (a space, say) anywhere after the cursor makes lexing of the whole string fail |
| WatchLexer.Lexer.constructor | watch_lang.cpp:33-42 | the cursor is at the start and the queue is empty |
| WatchLexer.Lexer.PeekChar | watch_lang.cpp:50-62 | returns the character under the cursor, NUL at the end, and changes nothing |
| WatchLexer.Lexer.ConsumeChar | watch_lang.cpp:64-77 | at the end returns NUL and does not move; otherwise returns the character and advances by exactly one |
| WatchLexer.Lexer.PushToken | watch_lang.cpp:79-86 | appends the token at the tail and adds one to the count, which stays the queue's length |
| WatchLexer.Lexer.ConsumeRun | watch_lang.cpp:113-132 | takes exactly the maximal run at the cursor and returns its text |
| WatchLexer.Lexer.LexNumber | watch_lang.cpp:97-138 | a maximal run of digits becomes one `ImmInt` token whose text is `NumberTextAsWritten`: the digits, with the first written twice when a `'-'` is pending |
| WatchLexer.Lexer.LexSymbol | watch_lang.cpp:199-233 | a maximal run of letters and underscores becomes one `Symbol` token |
| WatchLexer.Lexer.LexDot | watch_lang.cpp:176-192 | `..` becomes one `DotDot` and a lone `.` becomes `Dot` |
| WatchLexer.Lexer.LexOne | watch_lang.cpp:95-237 | one pass of the loop does what `LexStep` says under the `AsWritten` reading: the token, the cursor, the pending minus or the fault |
| WatchLexer.Lexer.LexNext | watch_lang.cpp:95-237 | one pass of the loop, as written: at the end of the string nothing changes; otherwise the cursor moves forward and the queue followed by the tokens still to come is what it was, or the fault is the one lexing the rest would meet |
| WatchLexer.Lexer.BuildTokens | watch_lang.cpp:88-243 | the queue becomes the old queue followed by `LexFrom(AsWritten, ...)` of the string, ending with EOF, or the fault `LexFrom` names |
| WatchParser.ParseFrom | watch_lang.cpp:287-343 | a parse that succeeds consumes at least one token and stays inside the queue |
| WatchParser.ParseFromWellFormed | watch_lang.cpp:287-343 | every tree the parser builds has identifiers on symbols, literals on integers and primaries as indexes |
| WatchParser.ParseIndexSuffix | watch_lang.cpp:316-334 | after a node, `'[' primary ']'` wraps it in an index expression |
| WatchParser.ParseTokensOf | watch_lang.cpp:287-343 | the tokens of a well-formed tree parse to that tree, whatever follows them |
| WatchParser.ParseRoundTrip | watch_lang.cpp:345-351 | a well-formed tree's tokens followed by EOF parse back to exactly that tree, consuming them all |
| WatchParser.Parse | watch_lang.cpp:345-351 | the tree of a whole token queue up to EOF; `ParseRoundTrip` states it inverts a tree's tokens |
| WatchParser.Parser.constructor | watch_lang.cpp:245-254 | no token is taken and there is no tree |
| WatchParser.Parser.ConsumeToken | watch_lang.cpp:268-285 | returns the next token and moves on; past the last one there is no token and the cursor goes back to before the first |
| WatchParser.Parser.NextExpression | watch_lang.cpp:287-343 | returns the node and consumes the tokens `ParseFrom` says, or fails with its fault |
| WatchParser.Parser.BuildAST | watch_lang.cpp:345-351 | the root becomes the tree parsed up to EOF, or the fault is returned and the root is unchanged |

## Left out

- Process control is left out: `fork`, `execl`, `ptrace` and `waitpid`. Every stop is an input record, and the debuggee's own execution and its memory writes are not modelled. The debuggee is assumed not to write the words the debugger patches.
- libdwarf's traversal and attribute decoding are left out. The compile-unit, function, line and FDE tables are inputs. The CFA rule query is a function parameter.
- capstone is left out. The decoder is a function parameter from a word and an address to an instruction record (size, groups, operand count, first immediate).
- `DumpFile` and other file I/O are left out. A file's content is a parameter.
- The ImGui/GLFW interface and the `DebugStart` loop are left out, and so are `printf` output (the segfault message, the parser's "Unexpected token" line) and `DisassembleAroundAddress`'s listing. Its trap-masking step is modelled as `MaskedWord`.
- Arena allocation and the queue macro internals are left out. The token queue is a sequence, and `LexerDestroy` and `ParserDestroy` have nothing to model.
- Memory words at addresses closer than eight bytes do not overlap in the model, so a poke at one address never changes the word read at another.
- `ToNextLine`'s `TempBreakpoints[8]` array is a sequence. Overflowing it after eight traps is not modelled.
- `MAX_SOURCE_FILES` is not modelled: the table grows without bound.
- Null pointers where the source tests for them (a null string, a null `Content`) are not modelled. Strings are values.
- `TO_LOWERCASE` is defined in debag.h, which is not part of this model. It is taken as ASCII lower-casing of letters.
- A failed `assert` is an abort in the source. The model returns a `Failure`/`Fail` value instead: `NoLineAtRip`, the plan faults, `LexFault` and `ParseFault`.
- `LexerTokenKindToString`'s "Unknown token kind" default cannot be reached with the enumeration as a datatype.
- `ParserPeekToken` in `ParserBuildAST`'s assertion takes the address of a field of a possibly null node. Its value depends on the layout in debag.h, which is not part of this model. The model reads it as "a token must be there", which `NoToken` covers.
- The lexer's 16-byte chunks and their missing NUL terminator are not modelled. A literal's or symbol's text is a string of any length.
- Flow.Debugger.StepLine: the source loops until the line changes, which depends on the debuggee. The model takes a finite sequence of stops as its budget and reports `OutOfStops` when they run out.
- Symbols.CurrentLineRange: in a table with entries, a pc no entry covers (a null `Current`) or a start inside no function (a null `Func`) is a fault in the model, where the source dereferences null.
- Symbols.AddressRangeCurrentAndNextLine: the same two null dereferences are faults.
- CStrings.StringCopy: requires the destination to hold the source and its terminator. The source copies with no bound, and its callers pass DWARF names of any length into fixed `Name` buffers, so the overflow past the buffer is not modelled.
- WatchLexer.PunctKindInverse: its first two clauses are about the corrected mapping. The source's mapping fails them at `')'` only, which the third clause states.
- WatchLexer.NumberText: states the corrected literal text that keeps the sign. The source's text is `NumberTextAsWritten`, and the `Lexer` class follows it.
- LinePlan.Walk: the next address `cur + insn.size` is an unbounded integer. The source adds in `u64`, which would wrap only for an instruction that ends past 2^64 - 1; that wrap-around is not modelled.

## Findings

| source | as written | input that shows it | evidently intended | confidence | as-written member | corrected member |
|---|---|---|---|---|---|---|
| flow.cpp:305-309 | temporary traps are disabled in planting order | a line with two relative jumps to one label outside the line: both traps sit at the label and the second saved 0xCC, so disabling it last writes 0xCC back | every temporary trap is retired and memory is as before | not executed | LinePlan.DuplicateTrapLeftArmed, LinePlan.TwoJumpsToOneLabel, Flow.ToNextLineInOrder | LinePlan.ReverseRetireRestores, Flow.ToNextLineRestoresMemory |
| debag.cpp:535-549 | the entry point is the first function whose name `StringsMatch`es "main", a prefix test | a function named "mainloop", or one with an empty name, listed before `main` | the low pc of the function named exactly "main" | not executed | Symbols.EntryPointPrefixMatch | Symbols.EntryPointExactIgnoresOthers |
| watch_lang.cpp:157-162 | `')'` produces a `ParenOp` token | the string "()" lexes to two `ParenOp` tokens | `')'` produces `ParenCl` | not executed | WatchLexer.CloseParenLexesAsOpen, WatchLexer.AsWrittenExamples | WatchLexer.PunctKindInverse, WatchLexer.LexRenderRoundTrip |
| watch_lang.cpp:103-108 | after a `'-'` the first digit is written twice and no sign is kept | "-5" and "55" both lex to an `ImmInt` with text "55" | the literal keeps its minus sign: "-5" | not executed | WatchLexer.MinusDoublesDigit, WatchLexer.AsWrittenExamples | WatchLexer.NumberTextInjective, WatchLexer.LexRenderRoundTrip |
