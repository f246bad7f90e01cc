# An assembler and an emulator for RV32IM, verified end to end

The repository holds two programs: a two-pass assembler that turns RV32I and M assembly source into a flat
binary, and an emulator that fetches, decodes and executes such a binary over a register file and a byte
memory. This project models both and connects them: running the processor on the file that the assembler
writes is running the source program, line by line and for runs of any length.

`dafny verify dfyconfig.toml` checks the whole project.

## How the model is organised

- **Words** – machine words as bounded integers with the wrap-around written out, and the bitwise operators
  defined bit by bit.
- **Codec** – the six encoders (`EncodeR` to `EncodeJ`) and the decoder (`DecodeWord`, class `Instruction`),
  transcribed independently of each other from the two programs. The formats are those of sections 2.2 and 2.3
  of The RISC-V Instruction Set Manual, Volume I, document version 20191213.
- **MulDiv** – the M extension as the emulator computes it, with 64-bit wrap-around where the C++ has it
  (sections 7.1 and 7.2 of the same manual).
- **ByteMemory** – memory as a class over a byte array, and as a byte map under a history of accesses.
- **Cpu**, **CpuClass** – `Step`, the transition function, with invariants over all runs in which the host answers
  system calls as it likes; and the processor class whose methods are proved against it.
- **Isa** – a second reading of the processor, written from the manual with literal field positions, opcodes and call
  numbers and sharing nothing with fetching, decoding and executing; a step is proved equal to it on every state.
- **Text**, **Directives** – the C library's number conversions, labels, immediates, registers, decimal printing,
  string literals and number lists, on characters.
- **Numerals** – printers of numbers written independently of the conversions, and what every number, string and
  register operand is worth by them.
- **Source** – tokenised lines, instruction classes, encoding of one line (`EncodeInstruction`, `Expand`,
  `CodeBytes`) and the size the first pass reserves for it (`CodeCount`).
- **Layout** – an independent, global reading of where everything goes: the offset of a line is the total size of
  the earlier lines of its section, a base is the total size of the sections before it, the image is the
  concatenation of the section bodies. It also defines the well-formed sources.
- **Lockstep**, **ImageProof** – the second pass as a fold that recomputes its own position line by line, and
  its agreement with the layout: lockstep, image composition, labels, and exactly when agreement fails.
- **Assembler** – the assembler object with its tables and output file: every pass as a method with loops, proved
  for every source against a fold over the lines, and `Assemble` for the whole program.
- **Failures** – which lines and which sources are rejected, and what the passes make of the odd ones.
- **Semantics** – what a source line means, chosen by its mnemonic alone and stated on registers, numbers and labels,
  without formats, function codes, label tables or emitted bytes.
- **StepProof**, **Simulation**, **Correctness**, **Runs** – one processor step per instruction class, the program
  in memory, forward simulation of every line, and whole runs.
- **Examples** – a concrete program that meets all hypotheses, and the smallest sources on which the passes disagree.

## The main results

1. *Codec.* The decoder inverts every encoder, the encoders invert the decoder, and an immediate survives if and
   only if its format can hold it (`ImmediateExact`).
2. *Two passes.* For every well-formed source the second pass is in lockstep with the first
   (`TwoPassLockstep`). Among all sources whose lines both passes size alike, that happens if and only if sections
   are entered while empty and a bare `.data` meets an empty `.rodata` (`LockstepExact`); and a line is sized alike
   unless it is a `li` of a label at a small address (`CodeSizesExact`).
3. *Image.* `Assemble` writes text, rodata, data, bss and the custom sections by name, whatever the order of the
   source; no byte is written twice and none is missing.
4. *Compiler correctness.* `ForwardSimulation` for a line, `RunSimulation` and `AssembledProgramRuns` for runs.
5. *Processor and memory.* A step is what the manual says on every machine state (`Isa.StepExact`); invariants over
   every run, frame and failure atomicity of a step, exact products and quotients, memory as a byte map.
6. *Operands.* What is printed is what is read: numbers in base 8, 10 and 16 (`HexLiteral`, `ByteLiterals`), strings
   (`StringOperand`), registers (`NumberedRegister`).
7. *Errors.* A source is assembled if and only if the first pass succeeds and every line resolves
   (`AssembledExactly`, `CodeBytesExactly`).

## Well-formed sources

`Layout.WellFormed` states them. Every line is *sizable*: data directives are well-formed and outside text
sections, instructions have known mnemonics and readable operands, `li` takes a number, no `.text.*`, `.data.*`,
`.rodata.*` or `.bss.*` subsection is entered; labels are unique and the image is smaller than 2^32 bytes. And
sections are *entered in order*: each one while nothing is reserved in it, and a bare `.data` only when `.rodata`
is empty. A line *can run* (`Semantics.Runnable`) when it is an instruction of `.text` with valid registers and with
immediates and displacements in range; the simulation needs this only of lines that are executed, because a source
run ends where control reaches anything else.

## Readings of the code

- `int32_t` arithmetic is read as two's-complement wrap-around, also where C++ leaves the overflow undefined, as
  in `imm + 0x800` and `hi20 << 12` (assembler/src/expand_pseudoinstruction.cpp:26-27). Right shifts of negative
  values round toward minus infinity.
- `exit(1)` is the result `Exit`, and a loop that stops making progress is the result `Diverge`.
- The documentation lists data before rodata (emulator/README.md:83-89); the code places rodata first
  (assembler/src/adjust_labels.cpp:16-26), and so does the model.
- The documentation shows a `.text.startup` subsection beside `.text` (assembler/README.md:130-140) and promises
  validation of immediates (assembler/README.md:72); the code never places subsections and truncates immediates
  silently. The model follows the code: subsections are not well-formed, and `ImmediateExact` says exactly which
  immediates survive.
- The file is a byte sequence with a position; a write past the end fills the gap with zeros.

## Model

| member | source | states |
|---|---|---|
| Codec.Instruction.Decode | emulator/src/instructions.cpp:32-88 | the object's fields after a decode are exactly the decoded fields of the word, and decode fails exactly on the opcodes outside the table |
| Codec.SignExtendValue | emulator/src/instructions.cpp:6-14 | the xor-and-subtract idiom is the two's-complement reading of a field of any width below 32 |
| Codec.DecodeEncodeR | assembler/src/encode.cpp:4-6 | decoding an R word gives back every field |
| Codec.DecodeEncodeI | assembler/src/encode.cpp:8-10 | decoding an I word of any of the four I opcodes gives back fields and signed immediate |
| Codec.DecodeEncodeShift | assembler/src/second_pass.cpp:65-70 | an immediate shift, encoded as an R word, decodes as an I word whose immediate holds function code and shift amount |
| Codec.DecodeEncodeS | assembler/src/encode.cpp:12-14 | decoding an S word gives back fields and signed immediate |
| Codec.DecodeEncodeB | assembler/src/encode.cpp:16-25 | decoding a B word gives back fields and every even displacement in [-4096, 4094] |
| Codec.DecodeEncodeU | assembler/src/encode.cpp:27-29 | decoding a U word gives back register and every multiple of 4096 |
| Codec.DecodeEncodeJ | assembler/src/encode.cpp:31-40 | decoding a J word gives back register and every even displacement in [-2^20, 2^20 - 2] |
| Codec.EncodeDecode | emulator/src/instructions.cpp:32-88 | every word the decoder accepts re-encodes from its decoded fields to the same word |
| Codec.DecodeInjective | emulator/src/instructions.cpp:32-88 | two words that decode to the same fields are the same word |
| Codec.DecodedImmInRange | emulator/src/instructions.cpp:16-81 | whatever the word, a decoded immediate lies in the range and parity of its format |
| Codec.ImmediateExact | assembler/src/encode.cpp:4-40 | for every immediate, in or out of range, it survives encoding and decoding if and only if its format can hold it |
| Words.BitwiseOperators | emulator/src/cpu.cpp:362-375 | the modelled and, or and xor act on every bit position independently |
| MulDiv.MulhLaw | emulator/src/cpu.cpp:323-327 | mulh and mul together are the exact signed product |
| MulDiv.MulhuLaw | emulator/src/cpu.cpp:330-331 | mulhu and mul together are the exact unsigned product |
| MulDiv.MulhsuLaw | emulator/src/cpu.cpp:328-329 | mulhsu and mul together are the exact signed-by-unsigned product |
| MulDiv.MulhsuValue | emulator/src/cpu.cpp:328-329 | although both factors wrap to 64 unsigned bits, the result is the high word of the exact product |
| MulDiv.SignedDivisionLaw | emulator/src/cpu.cpp:332-337 | dividend = divisor * quotient + remainder as signed numbers; the remainder is smaller than the divisor and has the dividend's sign |
| MulDiv.UnsignedDivisionLaw | emulator/src/cpu.cpp:334-339 | the same law on unsigned numbers |
| MulDiv.WordDivisionLaw | emulator/src/cpu.cpp:332-339 | the identity on words modulo 2^32, zero divisor included |
| MulDiv.ZeroDivisor | emulator/src/cpu.cpp:332-339 | a zero divisor gives a quotient of all ones and the dividend as remainder, signed and unsigned |
| ByteMemory.LittleEndianRoundTrip | emulator/src/memory.cpp:92-108 | the bytes written for a value read back as the value reduced to the access width |
| ByteMemory.LoadAfterStore | emulator/src/memory.cpp:33-108 | a store is read back and changes no byte outside its 1, 2 or 4 |
| ByteMemory.MemoryIsByteMap | emulator/src/memory.cpp:23-108 | after any history of mixed-width accesses, failed ones included, each cell holds the latest byte written to it |
| ByteMemory.LoadsLatestBytes | emulator/src/memory.cpp:23-90 | after any history a load is the little-endian combination of the latest bytes of its cells |
| ByteMemory.Memory.constructor | emulator/src/memory.cpp:8-13 | a new memory of any size is all zero |
| ByteMemory.BoundsTestExact | emulator/src/memory.cpp:79-82 | the test of the address against size - n is right for every address if and only if the memory has at least n bytes |
| ByteMemory.Memory.Read8 | emulator/src/memory.cpp:23-31 | status and value of a byte read |
| ByteMemory.Memory.Write8 | emulator/src/memory.cpp:33-41 | status of a byte write; the array changes in exactly that byte, or not at all on failure |
| ByteMemory.Memory.Read16 | emulator/src/memory.cpp:43-56 | misalignment is reported before bounds; the shift-and-or code gives the little-endian value |
| ByteMemory.Memory.Write16 | emulator/src/memory.cpp:58-72 | as for bytes, for two bytes |
| ByteMemory.Memory.Read32 | emulator/src/memory.cpp:74-90 | misalignment is reported before bounds; the shift-and-or code gives the little-endian value |
| ByteMemory.Memory.Write32 | emulator/src/memory.cpp:92-108 | as for bytes, for four bytes |
| Cpu.StepKeepsInv | emulator/src/cpu.cpp:526-610 | a step from an even pc keeps register 0 at zero and the pc even, whatever the host does in a system call |
| Cpu.RunKeepsInv | emulator/src/cpu.cpp:526-610 | the same for every state of every run of calls, host calls and failing calls included |
| Cpu.StuckForever | emulator/src/cpu.cpp:141-156 | a failed fetch and the stopped state are fixed points: every later state of the run is the same |
| Cpu.OnlyExitStops | emulator/src/cpu.cpp:165-168 | a call leaves a running processor stopped if and only if it returns the exit status, which needs 93 in x17 |
| Cpu.StepFrame | emulator/src/cpu.cpp:437-524 | a step that is not a system instruction changes at most register rd or at most four bytes at the store address, never both |
| Cpu.FailureIsAtomic | emulator/src/cpu.cpp:526-610 | a step returning a fetch, decode, illegal-instruction or execution error changes no register or memory; the pc stays on a fetch failure and has advanced by 4 otherwise |
| Isa.StepExact | emulator/src/cpu.cpp:526-610 | on every machine state a step is what the instruction-set manual, written out with literal fields, opcodes and call numbers, says of the fetched word; otherwise the literal fetch error |
| Isa.StepOnWord | emulator/src/cpu.cpp:437-524 | each of the 2^32 words, accepted or refused, does what the manual says of it |
| Isa.UndefinedExactly | emulator/src/cpu.cpp:332-339 | the quotient is left undefined exactly for div and rem of 0x80000000 by 0xFFFFFFFF |
| Isa.FetchErrors | emulator/src/cpu.cpp:141-156 | however a call settles: misaligned pc, then bounds, each with its own status and an unchanged machine; and no fetch error otherwise |
| Isa.DecodesExactly | emulator/src/instructions.cpp:32-88 | a word decodes if and only if its low seven bits are one of the ten opcodes, listed literally |
| Isa.CallsMeanThat | emulator/src/cpu.cpp:158-251 | the system calls by number: exit, the five host calls, -12 for brk and -38 for any other |
| Isa.HostTable | emulator/src/cpu.cpp:172-243 | the states a host call may leave, call by call: cells of the buffer of a read that fits, at most 64 bytes for fstat, and -1 for a buffer that does not fit |
| CpuClass.CPU.constructor | emulator/src/cpu.cpp:14-23 | the reset state: all registers zero except the stack pointer |
| Cpu.ReadAfterWrite | emulator/src/cpu.cpp:131-139 | after a register write that register reads as the new value unless it is register 0, every other one as before, and register 0 as zero |
| CpuClass.CPU.RegWrite | emulator/src/cpu.cpp:135-139 | the new state is the old one with that register set; writes to register 0 are lost |
| CpuClass.CPU.Fetch | emulator/src/cpu.cpp:141-156 | a misaligned pc is reported as misaligned whatever the bounds, an aligned one too near the end as out of bounds, and neither moves it; otherwise the fetched word, and the pc four further |
| CpuClass.CPU.HandleSyscall | emulator/src/cpu.cpp:158-251 | exit clears the running flag; brk and unknown numbers set x10 to the error code; a host call sets x10 and changes memory at most in its buffer, and a buffer that does not fit gives -1 and no change |
| CpuClass.CPU.HostFills | emulator/src/cpu.cpp:185-243 | whatever bytes the host delivers, no cell outside the buffer changes |
| CpuClass.CPU.ExecuteLoad | emulator/src/cpu.cpp:253-294 | value to be loaded and status, for all widths and both extensions |
| CpuClass.CPU.ExecuteStore | emulator/src/cpu.cpp:296-319 | the whole new state, equal to the old one on failure |
| CpuClass.CPU.ExecuteBranch | emulator/src/cpu.cpp:382-421 | the whole new state: only the pc moves, and only when the condition holds |
| CpuClass.CPU.ExecuteSystem | emulator/src/cpu.cpp:423-435 | dispatch on the 12-bit code |
| CpuClass.CPU.Execute | emulator/src/cpu.cpp:437-524 | the new state and status are those of the transition function on the old state, up to the choices of the host |
| CpuClass.CPU.Step | emulator/src/cpu.cpp:526-610 | one call of the object is one step of the transition system about which the run properties are proved, host calls included |
| Text.DecimalRoundTrip | assembler/src/utils.cpp:75-90 | for every int32 the text printed by the expander is read back as the same value, never as hexadecimal or a label |
| Text.StrtolDecimal | assembler/src/utils.cpp:85-87 | the number conversion takes a whole decimal numeral, with or without a minus sign, and saturates |
| Numerals.HexLiteral | assembler/src/utils.cpp:80-83 | a number of any size printed in hexadecimal, with 0x or 0X, either case of digits and either sign, is worth that number reduced to int32 after saturation to 64 bits, whatever labels exist |
| Numerals.HexWord | assembler/src/utils.cpp:80-83 | in particular every 32-bit word, as its signed reading |
| Numerals.DecimalLiteral | assembler/src/utils.cpp:85-87 | the same for decimal text of any size and sign |
| Numerals.NameIsLabel | assembler/src/utils.cpp:85-89 | an operand that starts with neither digit nor minus and digit is worth the address of its label, or the program exits |
| Numerals.NumberIsNoLabel | assembler/src/utils.cpp:75-89 | any other operand is worth something, the empty one zero, and no label changes it |
| Numerals.ByteLiterals | assembler/src/second_pass.cpp:200-209 | a .byte operand is hexadecimal after 0x, octal after a leading zero, decimal otherwise, with either sign, and is consumed as a whole |
| Numerals.HexWordLiteral | assembler/src/second_pass.cpp:211-235 | .half and .word consume a hexadecimal operand as a whole and store its value |
| Numerals.DecimalWordLiteral | assembler/src/second_pass.cpp:211-235 | and a decimal one |
| Numerals.SpaceOperand | assembler/src/first_pass.cpp:235-243 | after any white space .space reads the decimal number, of any size and sign, and ignores what follows |
| Numerals.SpaceDirective | assembler/src/second_pass.cpp:237-246 | .space of a number that fits int32 reserves and emits that many zeros; a negative one moves the offset back and emits nothing |
| Numerals.SpaceOfName | assembler/src/second_pass.cpp:237-246 | .space of a word that is no number reserves and emits nothing |
| Numerals.PlusSign | assembler/src/second_pass.cpp:200-246 | a plus sign before a digit changes neither a .byte nor a .space operand |
| Numerals.NumberedRegister | assembler/src/utils.cpp:57-61 | x and a printed number is the register of that number up to 31, and no register above, however long the number is |
| Numerals.RegisterDigits | assembler/src/utils.cpp:56-61 | the same for digits with leading zeros, of which the first fourteen are read; x alone is register 0 |
| Numerals.RegisterJunk | assembler/src/utils.cpp:57-61 | a letter among the digits makes it no register |
| Numerals.NameIsPrefix | assembler/src/utils.cpp:14-21 | a register name ends at the first character that is neither letter nor digit, and after 15 characters |
| Numerals.AbiPointers | assembler/src/utils.cpp:23-31 | zero, ra, sp, gp and tp are registers 0 to 4, and fp is s0, register 8 |
| Numerals.AbiArguments | assembler/src/utils.cpp:33-40 | a0 to a7 are registers 10 to 17 |
| Numerals.AbiTemporaries | assembler/src/utils.cpp:28-54 | t0 to t2 are registers 5 to 7 and t3 to t6 registers 28 to 31 |
| Numerals.AbiSaved | assembler/src/utils.cpp:31-50 | s0 and s1 are registers 8 and 9, and s2 to s11 registers 18 to 27 |
| Numerals.OtherNames | assembler/src/utils.cpp:56 | a name outside the table that does not start with x is no register |
| Directives.ParseEscapedString | assembler/src/utils.cpp:92-121 | the loop over characters computes the string's bytes, or fails on an unknown escape |
| Directives.EscapeRoundTrip | assembler/src/utils.cpp:92-121 | every byte string can be written as a literal and is read back exactly, whatever follows its closing quote |
| Directives.EscapeTable | assembler/src/utils.cpp:98-110 | the five escapes, each with its byte |
| Directives.UnknownEscape | assembler/src/utils.cpp:106-108 | any other character after a backslash is an error |
| Directives.StringOperand | assembler/src/second_pass.cpp:176-183 | a string operand is the bytes of its literal, from the first quote to the next one that is not escaped, whatever stands before and after; without a quote it is an error |
| Directives.StringDirectives | assembler/src/second_pass.cpp:176-198 | .asciiz reserves and emits these bytes and a zero, .ascii the bytes alone, and both passes fail without a quote |
| Directives.CountOperands | assembler/src/first_pass.cpp:190-200 | the nested counting loop terminates with the operand count |
| Directives.OperandStable | assembler/src/second_pass.cpp:200-235 | a literal is converted to the same value whatever text follows it, and is consumed exactly |
| Directives.ListsAgree | assembler/src/second_pass.cpp:200-235 | on a rendered list the first pass counts the operands, and the second emits each value little-endian in order and stops |
| Directives.ListDirectives | assembler/src/second_pass.cpp:200-235 | .byte, .half and .word reserve and emit one, two and four bytes for each rendered operand |
| Directives.ListOfNames | assembler/src/second_pass.cpp:200-235 | a word that is no number stops .byte from making progress; .half and .word look it up as a label |
| Directives.DirectivesAgree | assembler/src/first_pass.cpp:162-244 | for every well-formed directive the bytes emitted are as many as the bytes counted |
| Source.MnemonicOfClass | assembler/src/second_pass.cpp:16-129 | no two mnemonics share format and function codes: the encoding table is injective |
| Source.CodeSizesExact | assembler/src/first_pass.cpp:16-51 | the reserved and the emitted size of an instruction agree if and only if it is not a li of a label whose address fits twelve bits |
| Lockstep.LiLength | assembler/src/expand_pseudoinstruction.cpp:19-33 | li of a number takes one instruction for -2048 to 2047 and two for any other, in both passes |
| Layout.Subsection | assembler/src/utils.cpp:149-155 | a dotted subsection has the type of its parent, whatever its suffix |
| Layout.CustomSection | assembler/src/utils.cpp:149-155 | every other name is a custom section |
| Layout.SubsectionAtZero | assembler/src/adjust_labels.cpp:34-41 | whatever a dotted subsection holds, it starts at address zero like .text |
| Layout.LexDifference | assembler/src/adjust_labels.cpp:34-41 | names compare by their first difference, and a prefix comes first |
| Layout.SortedAscends | assembler/src/adjust_labels.cpp:34-41 | a set of names is listed in ascending order |
| Layout.RelocationIsFinal | assembler/src/adjust_labels.cpp:43-49 | adding the section base to each recorded offset gives, label by label, the layout address of the defining line |
| Lockstep.LookupBefore | assembler/src/utils.cpp:66-73 | looking a name up finds the address of its defining line, and fails exactly when no earlier line defines it |
| Lockstep.LabelAddress | assembler/src/adjust_labels.cpp:43-49 | every adjusted label address is the layout address of its line |
| Lockstep.CodeEmits | assembler/src/second_pass.cpp:267-384 | a well-formed instruction line is emitted without an error exit |
| Lockstep.SplitParses | assembler/src/expand_pseudoinstruction.cpp:26-43 | the printed parts of a split value are read back as those parts |
| Lockstep.WriteTwice | assembler/src/second_pass.cpp:350-378 | writing two pieces at a moving file position is writing their concatenation once |
| ImageProof.LineEmits | assembler/src/second_pass.cpp:386-503 | every line of a sizable source emits exactly the bytes reserved for it |
| ImageProof.SizableAgrees | assembler/src/first_pass.cpp:246-353 | a sizable source is sized alike by both passes, and none of its addresses wraps around |
| ImageProof.StandardBases | assembler/src/adjust_labels.cpp:10-32 | text stands at zero, rodata after text, data after both and bss after all three |
| ImageProof.PlacedInOrder | assembler/src/adjust_labels.cpp:7-41 | a section placed earlier ends before a later one begins |
| ImageProof.CustomByName | assembler/src/adjust_labels.cpp:34-41 | of two custom sections the one whose name is smaller at the first difference is placed, and ends, before the other |
| ImageProof.CustomAfterStandard | assembler/src/adjust_labels.cpp:34-41 | every custom section begins after each standard one has ended |
| ImageProof.SectionsDisjoint | assembler/src/adjust_labels.cpp:7-41 | two placed sections occupy disjoint intervals |
| ImageProof.BasesCover | assembler/src/adjust_labels.cpp:7-41 | the section intervals leave no gap below the total size |
| ImageProof.LineInterval | assembler/src/adjust_labels.cpp:7-49 | each line's bytes lie inside its section and its section inside the image |
| ImageProof.LinesDisjoint | assembler/src/second_pass.cpp:394-502 | no byte is written twice: the bytes of two lines never overlap |
| ImageProof.LinesCover | assembler/src/second_pass.cpp:394-502 | every byte of the image is written by some line |
| ImageProof.ImageLength | assembler/src/adjust_labels.cpp:7-41 | the image is as long as the sum of all section offsets |
| ImageProof.ImageSlice | assembler/src/second_pass.cpp:394-502 | the image holds each line's bytes at that line's address |
| ImageProof.TextIsCode | assembler/src/first_pass.cpp:106-123 | the separate text counter equals the offset of .text wherever both passes size the lines alike |
| ImageProof.TwoPassLockstep | assembler/src/second_pass.cpp:386-503 | at every line of a well-formed source, and of every source sized alike and entered in order, the second pass's pc and file position are the section base plus the first-pass offset |
| ImageProof.EnteringStep | assembler/src/second_pass.cpp:412-456 | a section directive moves the second pass to the layout address if and only if the section is entered in order |
| ImageProof.LockstepExact | assembler/src/second_pass.cpp:386-503 | on all sources whose lines both passes size alike, dotted subsections included, the passes stay in step if and only if sections are entered empty and a bare .data comes with an empty .rodata |
| Examples.ReentryBreaksLockstep | assembler/src/second_pass.cpp:424-429 | a source out of step: an instruction followed by a second .text |
| Examples.BareDataBreaksLockstep | assembler/src/second_pass.cpp:431-436 | a source out of step: a byte of .rodata followed by a bare .data |
| Examples.LiOfNearLabel | assembler/src/expand_pseudoinstruction.cpp:19-24 | a line sized differently: li of a label at address 0, two instructions reserved and one emitted |
| Examples.NumberOperands | assembler/src/utils.cpp:75-90 | 42, -7, 0x100 and -0xF are 42, -7, 256 and -15 |
| Examples.RegisterOperands | assembler/src/utils.cpp:14-62 | x10 and a0 are register 10 |
| Examples.StringOperands | assembler/src/second_pass.cpp:176-187 | .asciiz "hi" emits 104, 105, 0 |
| ImageProof.ImageComposition | assembler/src/second_pass.cpp:394-502 | whatever the order of sections in the source, the file is text, rodata, data, bss and the custom sections by name |
| ImageProof.LabelMarksNextItem | assembler/src/first_pass.cpp:154-159 | a label's address is the offset at which the next bytes of its section are emitted |
| ImageProof.LabelInSection | assembler/src/adjust_labels.cpp:43-49 | a label lies in the closed interval of its section, and a .text label at a multiple of four |
| ImageProof.TextAligned | assembler/src/first_pass.cpp:106-123 | every text offset and address is a multiple of four |
| Assembler.OutFile.Write | assembler/src/second_pass.cpp:376-377 | a write at the current position overwrites there, fills a gap with zeros and advances |
| Assembler.Assembler.constructor | assembler/src/constructor.cpp:4-17 | a fresh assembler has the four standard sections, empty and unplaced |
| Assembler.Assembler.SwitchSection | assembler/src/utils.cpp:123-131 | makes the section current and creates it, with the type of its name, only if it is new |
| Assembler.Assembler.ProcessInstructionFirstPass | assembler/src/first_pass.cpp:106-123 | reserves four bytes per instruction of the expansion, in the section and, in .text, in the text counter; fails exactly when the size needs an undefined label |
| Assembler.Assembler.ProcessLabel | assembler/src/first_pass.cpp:125-160 | records the label at the current offset, or fails exactly on a duplicate and then changes nothing |
| Assembler.Assembler.ProcessDirective | assembler/src/first_pass.cpp:162-244 | reserves the directive's size in the current section only, or fails exactly on a malformed string |
| Assembler.Assembler.ProcessItem | assembler/src/first_pass.cpp:313-339 | label, instruction or directive of one line: the new state, or the failure, of the fold |
| Assembler.Assembler.FirstPass | assembler/src/first_pass.cpp:246-353 | for every source the final state, or the failure, is that of the fold over the lines |
| Assembler.FirstPassIsLayout | assembler/src/first_pass.cpp:246-353 | the fold succeeds exactly when no label is defined twice and every line can be sized, and then offsets, labels and text counter are those of the global layout, unless a li names a label that starts with a minus sign |
| Assembler.PlainTables | assembler/src/adjust_labels.cpp:4-50 | first pass and label adjustment together hand over exactly the bases and label addresses of the layout |
| Failures.ResolvesExactly | assembler/src/utils.cpp:66-90 | an immediate can be read if and only if it is empty, a number or a known label; otherwise the program exits |
| Failures.CodeBytesExactly | assembler/src/second_pass.cpp:16-132 | an instruction line is emitted if and only if its mnemonic is known and its operand resolves, wherever it stands; otherwise the program exits |
| Failures.SectionDirectives | assembler/src/second_pass.cpp:397-456 | a section directive brings both passes to the section it names; no offset moves and nothing is written, and the second pass goes to the base, for .text to zero and for a bare .data to the end of the instructions |
| Failures.DataInText | assembler/src/first_pass.cpp:313-333 | a data directive in a text section is never emitted, but the first pass reserves four bytes when it carries a label and its own size otherwise |
| Failures.AssembledExactly | assembler/src/main.cpp:42-49 | a source that passes the first pass is assembled if and only if the second pass accepts each single line |
| Failures.FirstPassFailure | assembler/src/main.cpp:42-49 | a source that fails the first pass is not assembled |
| Assembler.Assembler.PlaceStandard | assembler/src/adjust_labels.cpp:10-32 | the standard sections get the running sums of the sizes before them |
| Assembler.Assembler.PlaceCustom | assembler/src/adjust_labels.cpp:34-41 | the custom sections follow in the order of their names |
| Assembler.Assembler.AdjustLabels | assembler/src/adjust_labels.cpp:4-50 | every section gets its base, offsets stay, and every label moves by the base of its section |
| Assembler.Assembler.MoveLabels | assembler/src/adjust_labels.cpp:43-49 | the loop over the labels relocates each one once |
| Assembler.Assembler.FindLabelAddress | assembler/src/utils.cpp:66-73 | the scan returns the first label of the name, or nothing |
| Assembler.Assembler.ExpandPseudoinstruction | assembler/src/expand_pseudoinstruction.cpp:7-63 | fills the caller's buffers with the expansion and returns its length, or fails where the program exits |
| Assembler.Assembler.ProcessInstructionSecondPass | assembler/src/second_pass.cpp:267-384 | writes the machine code of the line at the file position and advances pc and position by its length |
| Assembler.Assembler.EncodeLines | assembler/src/second_pass.cpp:350-378 | the loop writes the instructions in order, each encoded at its own pc |
| Assembler.Assembler.EmitList | assembler/src/second_pass.cpp:200-235 | the loop writes the list's bytes; it fails or stops making progress exactly where the specification says |
| Assembler.Assembler.EmitZeros | assembler/src/second_pass.cpp:237-246 | writes as many zero bytes as requested, none for a negative size |
| Assembler.Assembler.ProcessDataDirective | assembler/src/second_pass.cpp:173-247 | writes the directive's bytes at the file position and advances pc and position by their number |
| Assembler.Assembler.SecondPass | assembler/src/second_pass.cpp:386-503 | the file, or the failure, is that of the line-by-line fold over section, pc, position and contents |
| Assembler.AssembledImage | assembler/src/main.cpp:42-49 | for every well-formed source the composition of the passes writes the image of the layout |
| Assembler.Assemble | assembler/src/main.cpp:42-49 | for every source, well-formed or not, the file or failure is that of the composed passes; for a well-formed one it is the image of the layout |
| StepProof.KindIsClass | assembler/src/second_pass.cpp:16-129 | the table in which the documentation lists a mnemonic agrees with the format in which it is encoded |
| StepProof.AluIsBinary | emulator/src/cpu.cpp:345-380 | for each register-register mnemonic the ALU computes the documented operation on integers |
| StepProof.ImmediateIsBinary | emulator/src/cpu.cpp:464-474 | for each immediate mnemonic the ALU computes the operation of its register form |
| StepProof.ShiftIsBinary | emulator/src/cpu.cpp:464-474 | for each immediate shift the ALU shifts by the amount modulo 32 |
| StepProof.MulDivIsBinary | emulator/src/cpu.cpp:321-343 | for each mnemonic of the M extension the result is the documented operation, except for the undefined quotient |
| StepProof.StepR | emulator/src/cpu.cpp:439-450 | fetching an encoded register-register instruction performs its operation |
| StepProof.StepI | emulator/src/cpu.cpp:464-474 | fetching an encoded immediate instruction performs its operation |
| StepProof.StepShift | emulator/src/cpu.cpp:464-474 | fetching an encoded immediate shift performs its operation |
| StepProof.StepLoad | emulator/src/cpu.cpp:456-462 | fetching an encoded load loads the extended cell or fails without effect |
| StepProof.StepStore | emulator/src/cpu.cpp:490-492 | fetching an encoded store stores the register or fails without effect |
| StepProof.StepBranch | emulator/src/cpu.cpp:494-496 | fetching an encoded branch moves the pc by the displacement or to the next word |
| StepProof.StepJal | emulator/src/cpu.cpp:514-517 | fetching an encoded jal links and moves the pc by the displacement, although the pc has already advanced |
| StepProof.StepJalr | emulator/src/cpu.cpp:476-479 | fetching an encoded jalr links and jumps to the sum with bit 0 cleared |
| StepProof.StepUpper | emulator/src/cpu.cpp:498-512 | fetching an encoded lui or auipc leaves the upper part, for auipc relative to the instruction's own address |
| StepProof.StepSystem | emulator/src/cpu.cpp:423-435 | fetching an encoded ecall or ebreak performs the system call or nothing |
| Simulation.OperandParses | assembler/src/utils.cpp:75-90 | an operand is read as the number it denotes or as the address of its label's line |
| Simulation.DisplacementExact | assembler/src/second_pass.cpp:87-114 | the displacement computed on wrapping words is the true distance whenever that fits the format |
| Simulation.LineInMemory | emulator/src/emulator.cpp:31-58 | the code of a line stands in memory at the load address plus the line's address |
| Correctness.SplitSum | assembler/src/expand_pseudoinstruction.cpp:26-27 | for every int32 the low part fits twelve signed bits and the two parts add up to the value |
| Correctness.UpperPairLine | assembler/src/expand_pseudoinstruction.cpp:26-43 | a lui or auipc and addi pair, printed, parsed, encoded, fetched and executed, leaves base plus value in the register |
| Correctness.SimulateLoadImmediate | assembler/src/expand_pseudoinstruction.cpp:19-33 | li, in one or two steps, performs its meaning |
| Correctness.SimulateLoadAddress | assembler/src/expand_pseudoinstruction.cpp:35-45 | la performs its meaning |
| Correctness.SimulateJumps | assembler/src/expand_pseudoinstruction.cpp:47-60 | call and j perform their meaning |
| Correctness.SimulateRet | assembler/src/expand_pseudoinstruction.cpp:52-55 | ret performs its meaning |
| Correctness.SimulateMoves | assembler/src/expand_pseudoinstruction.cpp:9-17 | mv and nop perform their meaning |
| Correctness.SimulateBranch | assembler/src/second_pass.cpp:87-110 | a branch line performs its meaning |
| Correctness.SimulateStore | assembler/src/second_pass.cpp:81-86 | a store line performs its meaning |
| Correctness.SimulateLoad | assembler/src/second_pass.cpp:71-80 | a load line performs its meaning |
| Correctness.ForwardSimulation | assembler/src/second_pass.cpp:339-383 | stepping from the address of any line that can run performs that line's source-level meaning in as many steps as it has instructions |
| Runs.LineIsUnique | assembler/src/second_pass.cpp:386-503 | an address determines the source line that is about to run |
| Runs.EveryLineCanRun | emulator/src/emulator.cpp:31-58 | for every line that can run there is a machine that holds the program and stands at that line |
| Examples.ProgramIsWellFormed | assembler/src/main.cpp:42-49 | a program with labels, li, la, a branch, a call, a return and a data section is well-formed |
| Examples.ProgramRuns | emulator/src/emulator.cpp:27-29 | each of its instructions meets the hypotheses of the simulation on some machine |
| Runs.ImageIsLoaded | emulator/src/emulator.cpp:42-48 | copying the whole image to an aligned address puts the text where the simulation needs it |
| Runs.MeaningKeepsLoaded | emulator/src/cpu.cpp:296-319 | a line that does not store into the text leaves the program in memory |
| Runs.RunSimulation | emulator/src/cpu.cpp:526-610 | for runs of any length, while no store hits the text, the processor reaches exactly the state and status of the source run in the counted number of steps |
| Runs.AssembledProgramRuns | assembler/src/main.cpp:42-49 | the same from the file that the second pass writes, loaded at any word-aligned address |
| Runs.CallReturns | assembler/src/expand_pseudoinstruction.cpp:47-55 | call, any body that keeps ra, then ret: execution resumes after the call with only the pc changed |
| Runs.BranchReachesLabel | emulator/src/cpu.cpp:382-421 | a taken branch sets the pc to the line that defines its label, an untaken one to the next word |
| Runs.JalReachesLabel | emulator/src/cpu.cpp:514-517 | jal sets the pc to the line that defines its label and links the next word |
| Runs.LiLoadsLiteral | assembler/src/expand_pseudoinstruction.cpp:19-33 | li leaves exactly the literal in rd, for every int32, and changes no other register and no memory |
| Runs.LaLoadsAddress | assembler/src/expand_pseudoinstruction.cpp:35-45 | la leaves the load address plus the label's address modulo 2^32 in rd and changes nothing else |

## Left out

- CpuClass.CPU.Execute: the quotient and remainder of INT_MIN and -1, undefined in C++, return the status `UndefinedQuotient`, and no run continues after it.
- CpuClass.CPU.Step: the same quotient and remainder.
- StepProof.MulDivIsBinary: excludes that same quotient and remainder.
- CpuClass.CPU.HandleSyscall: what the host answers to read, write, openat, close and fstat is left open, within the buffers they are given; `struct stat` has the size it has on 64-bit Linux.
- StepProof.StepSystem: a host call ends a run of `Steps` with the status `HostCall`; so does its source meaning, and a new run can start from whatever state the host leaves.
- CpuClass.CPU.ExecuteSystem: the message that ebreak prints is not modelled.
- ByteMemory.Memory.Read16: called on memories of at least two bytes, and the 32-bit accesses and the processor on at least four; below that the C++ reads outside its array, as `BoundsTestExact` shows.
- Assembler.FirstPassIsLayout: excludes a `li` in a text section whose operand starts with a minus sign and is not a number, because the first pass then looks a label up among those seen so far; `FirstPass` and `Assemble` cover it.
- Source files as characters: trimming, comments, label and operand splitting, the rewriting of `off(reg)` and the keyword tests on directives; a source is a sequence of tokenised lines, and directive operands and immediates are characters.
- Fixed sizes of C buffers and uninitialised scratch arrays: tokens are unbounded strings and missing operands are empty.
- The totals `text_size`, `data_size` and `pc_data`, which only feed a message.
- Image composition for dotted subsections, data directives in text sections, re-entered sections and a bare `.data` after rodata: outside the well-formed class; `SubsectionAtZero`, `DataInText` and the examples show what happens.
- Files, command lines, debug traces and register dumps; loading a program is the assumption that its bytes stand in memory.
- Sources that store into their own text: the simulation of runs stops at the first such store.
