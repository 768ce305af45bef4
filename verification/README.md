# Verification of the dEXE pipeline

dEXE turns x86-64 machine code into a C program: the front end cuts the disassembled text section into
functions, `cfg` splits each function into basic blocks, `ir` lifts the text of each instruction to a
versioned IR, and `backend` prints one C statement list per function, a label before every block, over a
global `cpu` structure. This project models that pipeline from the text of the instructions to the meaning of
the emitted C, and proves what the design relies on.

## The main results

* **The emitted C does what the machine code does.** `X86` defines the processor on the 64-bit register and
  memory subset (16 registers, byte memory, ZF CF SF OF PF, with undefined flags taken from an arbitrary
  source), `Capstone` the text it is disassembled to, and `CLang` the C machine (typed values, undefined
  behaviour, gotos). `Correctness.DecompilationIsCorrect` takes a function from its disassembly through
  `build_cfg`, `lift_function` and `emit_function` and relates n steps of the processor to m >= n steps of the
  C program, for every n, every start state and every choice of undefined flags. It follows that the C program
  returns exactly when the function does, with the same memory, the same registers and rax as its value, and
  that it is undefined exactly when the function negates the least signed number.
* **Exactly which forms are right.** `Divergence.FaithfulExactly`: for each encodable instruction and each origin
  of the flags, the emitted lines are right on all states if and only if `Instructions.Faithful` holds. The
  memory destinations, stale or unreadable conditions, rsp-dependent push and pop, and shifts by 64 or more
  that fail each have a state on which they fail.
* **Layout and control flow, for any text.** Whatever the instructions say, the emitted program is the
  instruction list in address order with a label before every leader (`Layout.EmissionIsFlat`). With direct
  jumps inside the function it executes exactly the trace of that list under the outcomes of its conditions,
  for runs of every length (`ControlFlow.TraceExactly`, `ControlFlow.NothingElseHappens`), and takes a step of
  the graph exactly when `ControlFlow.StepTakenExactly` says. It stops where the graph stops if and only if no
  instruction such as int or retf is lifted to a return while falling through
  (`ControlFlow.FunctionLeavesExactly`). The gotos without a label are exactly those whose target is no
  instruction (`Gotos.GotoClosure`).
* **Graph, starts and calls, spelled out.** Terminators, block boundaries and function starts are characterised
  by mnemonics, operand text and addresses (`Terminators.TerminatorIsRight`, `Terminators.BoundariesExactly`,
  `Frontend.StartsExactly`); a call enters its callee with exactly the return address pushed
  (`Calls.CallEnters`), and an indirect one goes to the right place exactly when `Calls.IndirectCallExactly` says.
* **Forms outside the subset.** What the text of narrow moves, extensions, one-operand mul, setcc, hints, locked
  operations and indirect jumps is lifted to, with the exact condition under which it is right (`Widths`,
  `Mnemonics`, `Misreadings`).
* **Names.** Every called name is declared and nothing else is; a printed name means one function exactly when
  nothing else is sanitised to it (`CallClosure.NameDeterminesExactly`), which two symbols can break.
* **Versions.** Every lifted block is in single-assignment form with exact version counts
  (`Versioning`), and printing an opcode without versions keeps its meaning if and only if it does not read the
  version it is defining (`SsaErasure.ErasureExactly`, and `SsaBlocks` for whole blocks).
* **Conditions.** The packed `cpu.rflags` answers exactly the ten equality, unsigned and signed conditions
  after a cmp, and exactly the six equality and unsigned ones after a test (`Flags`, against Appendix B of
  the Intel SDM, Vol. 1).
* **Text.** Operand splitting inverts joining, and registers, immediates and memory operands printed in Intel
  syntax are read back exactly (`Operands`, `OperandProofs`); a memory operand ends up as the effective
  address of section 3.7.5 of the Intel SDM, Vol. 1 (`OperandMeaning.EffectiveAddress`).

## Layout of the project

| modules | subject |
|---|---|
| Wrappers, Words, Text, Orders | words and memory, strings and numerals, ordered sets |
| Frontend, CallClosure | function starts, slices, calls between functions |
| Partition, Cfg, CfgBuilder, CfgWalk, Terminators | leaders, blocks, terminators, edges |
| Ir, Operands, Lifter, LifterLoop, Versioning, Conservation | parsing, lifting, versions |
| CLang, Backend, Erasure, Layout, Positions, Gotos, Execution, Declarations | the C fragment and its emission |
| X86, Capstone, OperandProofs, LiftProofs, Spellings | the processor and its printed form |
| OperandMeaning, Flags, Instructions, Divergence | one instruction at a time |
| FlatMachine, ControlFlow, Machine, Simulation, Correctness, FlagRuns, SaveRestore | whole runs |
| SsaErasure, SsaBlocks | versions dropped |
| Calls, Widths, Mnemonics, Misreadings | calls, and forms outside the subset |

Code that works in place is modelled in place: the collecting loops of the front end, `build_cfg`, the lifter
(class `BlockLifter`), the parsers' scans, the emitter and the declaration passes are methods proved equal to
specification functions, and the properties are proved of those functions.

`Machine.CertificateSuffices` reduces the hypothesis of the main theorem to a check of one instruction at a
time, and `Correctness.CountdownSupported` is a concrete loop that meets it.

`dafny verify dfyconfig.toml` checks everything.

## Where the code departs from its own description

* The comment on `lift_function` says the block's terminator is converted to IR; the code ignores it
  (src/ir.rs:734). The model follows the code; `Layout` shows why nothing is lost.
* The project's README shows C over local register variables; the code prints fields of `cpu`. The model
  follows the code.
* The CFG's comment on `parse_hex_target` allows bare hexadecimal targets; the lifter reads those as decimal.
  The two agree exactly on what `Misreadings.UnprefixedTarget` says, which covers every target that Capstone
  prints (`Misreadings.PrintedTargetPrefix`).
* Jumps outside the CFG's list of 18 conditional jumps are lifted as jumps all the same
  (`Misreadings.UnseenJumpExactly`).

## Model

| member | source | states |
|---|---|---|
| Frontend.AddPrologues | src/frontend.rs:190-200 | Adds exactly the addresses of disassembled `push rbp` prologues. |
| Frontend.AddCallTargets | src/frontend.rs:202-211 | Adds exactly the targets of direct calls that are addresses of disassembled instructions in the text range. |
| Frontend.DiscoverFunctions | src/frontend.rs:173-254 | The functions are the non-empty slices between consecutive starts, the starts being exactly the discovered ones in ascending order. |
| Frontend.StartsUnique | src/frontend.rs:213-217 | The list of starts is determined by what the starts are. |
| Frontend.StartsExactly | src/frontend.rs:173-211 | An address is a start if and only if it is a symbol or the entry point in the text range, the address of a one-byte push that mentions rbp, or a directly called instruction of the text range; stated on bytes, mnemonic and operand text. |
| Frontend.PushBeginsFunction | src/frontend.rs:190-200 | Every push rbp encoded as 0x55 begins a discovered function. |
| Frontend.FunctionExactly | src/frontend.rs:216-249 | A function runs from its start to the next start or the end of the text, holds exactly the instructions in between, and is named by its symbol or after its address. |
| Frontend.DiscoveryConserves | src/frontend.rs:216-253 | The function bodies, one after the other, are exactly the instructions from the first start on: nothing is lost, duplicated or reordered. |
| Frontend.FunctionBodies | src/frontend.rs:220-241 | Every function is a non-empty contiguous piece of the disassembly at or above its start. |
| Frontend.CallTargetsAreFunctions | src/frontend.rs:203-253 | A direct call to a disassembled instruction of the text range makes that instruction the first of a discovered function. |
| CallClosure.CallLifted | src/ir.rs:828-841 | A direct call in the 0x form is lifted with the very target that the front end reads. |
| CallClosure.CallsReachFunctions | src/backend.rs:476-492 | The name of such a call is resolved to that of the emitted function that begins with the target instruction. |
| CallClosure.NameDeterminesExactly | src/backend.rs:476-516 | A printed name determines an emitted function if and only if no other emitted function, called external name or outside target is sanitised to it. |
| CallClosure.NamesakesDiscovered | src/backend.rs:497-516 | Two symbols with the same sanitised name at two instructions give two discovered functions printed under one name. |
| CallClosure.Namesakes | src/backend.rs:497-516 | Two different names that are sanitised alike. |
| CallClosure.StubReadsBack | src/backend.rs:490-491 | The name printed for an address without function and symbol reads back, after its prefix, as the address. |
| CallClosure.StubsDistinct | src/backend.rs:490-491 | Two such addresses are printed alike if and only if they are equal. |
| CallClosure.SymbolPrinted | src/backend.rs:486-488 | A called address with a symbol and no function is printed under the sanitised symbol. |
| CallClosure.UnnamedAreDistinct | src/frontend.rs:235-239 | Functions without a symbol have C names distinct from each other and from what is printed for a call to any address without function and symbol. |
| Cfg.BlocksPartition | src/cfg.rs:91-146 | The blocks in id order concatenate to the function, none is empty, and their start addresses rise. |
| Cfg.ControlComesLast | src/cfg.rs:104-122 | A control instruction comes only last in its block, and a jump target only first. |
| Cfg.BlocksAreMaximal | src/cfg.rs:91-122 | Every boundary follows a control instruction or is a jump target. |
| Cfg.TargetsStartBlocks | src/cfg.rs:113-119 | A jump target inside the function starts a block. |
| CfgBuilder.BuildCfg | src/cfg.rs:71-265 | The loops over leaders, blocks, terminators and edges build exactly the specified graph. |
| CfgWalk.StepsAgree | src/cfg.rs:153-243 | Control can pass between two instructions in the flat code if and only if the graph allows it: inside a block or along a recorded edge from a last to a first instruction. |
| CfgWalk.RunsAgree | src/cfg.rs:153-243 | Traces of every length of the flat code and of the graph are the same. |
| CfgWalk.TerminatorExactly | src/cfg.rs:168-231 | A terminator names exactly the blocks its edges lead to, if and only if it is not the sentinel of a call at the very end. |
| CfgWalk.EntryIsFirst | src/cfg.rs:245-247 | The entry block of a non-empty function is block 0. |
| Terminators.ConditionalsExactly | src/cfg.rs:61-64 | The conditional jumps known to the graph are j followed by one of the sixteen conditions, jz and jnz, and no others. |
| Terminators.BoundariesExactly | src/cfg.rs:91-122 | A block ends after an instruction if and only if that is a jump, call, return or stop by its mnemonic, or a jump of the function goes to the next instruction. |
| Terminators.BlockSpans | src/cfg.rs:156-165 | Each block has its index as id, starts and ends with its instructions, and ends where the next one starts. |
| Terminators.TerminatorIsRight | src/cfg.rs:168-231 | Each kind of terminator occurs if and only if mnemonic, target and following block say so; a taken block starts at the target, a fall-through block at the end of the last instruction, and condition and callee are those printed. |
| Terminators.CalleeIsPrinted | src/cfg.rs:204-218 | The callee recorded for a printed call is the address printed. |
| Operands.ParseOperands | src/ir.rs:216-250 | The scan with its current piece and bracket depth yields the specified list. |
| Text.TrimExactly | src/ir.rs:192-194 | Trimming removes exactly the white space around a text. |
| Operands.SplitInvertsJoin | src/ir.rs:216-250 | Splitting any list of well-formed operands joined by ", " gives the list back. |
| Operands.ParseMemoryOperand | src/ir.rs:281-355 | The loop over the terms yields the specified operand. |
| OperandProofs.RegNameParsed | src/ir.rs:167-189 | Each 64-bit register name is read as its register. |
| Spellings.SpellingsExactly | src/ir.rs:167-189 | A lower-case text names a register if and only if it is one of that register's 64-, 32-, 16- or 8-bit names. |
| Spellings.SpellingRead | src/ir.rs:363-382 | Every spelling of a register lifts an operand to the variable of its 64-bit name. |
| Spellings.ScaleFirst | src/ir.rs:314-324 | A scaled index may be written with the scale first. |
| Spellings.MemorySized | src/ir.rs:253-279 | A memory operand with any of the ten size words is read as the same operand. |
| Spellings.NegatedSuffix | src/ir.rs:390-419 | Before a condition suffix, n negates the condition. |
| Spellings.SuffixSynonyms | src/ir.rs:390-419 | z and e, c and b, pe and p are the same conditions, and po is the opposite of pe. |
| OperandProofs.ImmediateRoundTrip | src/ir.rs:192-212 | A signed 64-bit number printed and parsed comes back if and only if it is not the least one. |
| OperandProofs.NatTextParsed | src/ir.rs:192-212 | A printed 64-bit pattern is read as its two's-complement value by the lifter and as itself by the CFG. |
| OperandProofs.TargetTextParsed | src/cfg.rs:279-286 | A printed branch target reads the same in the CFG and in the lifter. |
| OperandProofs.MemoryOperandRead | src/ir.rs:281-355 | Every base, index, scale and 32-bit displacement printed in Intel syntax is parsed back to that operand. |
| OperandProofs.OperandRead | src/ir.rs:363-376 | Every printed register, immediate and memory operand is parsed back. |
| OperandProofs.DestinationRead | src/ir.rs:379-382 | A printed destination is its register, and rax when it is in memory. |
| LiftProofs.OperandsRead | src/ir.rs:216-250 | The operand string of every subset instruction splits into its operands. |
| LiftProofs.InstructionLifted | src/ir.rs:493-732 | Every encodable instruction, printed, split, parsed and lifted under any versions, gives the IR opcodes meant for it, with the code's fallbacks to rax and to comments. |
| LifterLoop.BlockLifter.NewVersion | src/ir.rs:149-153 | Returns the next version of the base and records it, changing no other base. |
| LifterLoop.BlockLifter.Lift | src/ir.rs:493-732 | One instruction appends its opcodes at its address and updates the versions as specified. |
| LifterLoop.LiftFunctionLoop | src/ir.rs:478-762 | Lifting block by block with a fresh version map yields the specified function. |
| Versioning.VersionsAreExact | src/ir.rs:149-159 | In every lifted block the k-th write to a base has version k, and every read carries the number of earlier writes, save that moves, loads and lea that mention their destination read the version being defined. |
| Versioning.SingleAssignment | src/ir.rs:149-153 | No variable is defined twice in a block. |
| Conservation.LiftingConserves | src/ir.rs:493-732 | Lifting keeps the instructions in order; the number of opcodes is the number of instructions plus the number of leaves. |
| Conservation.FallthroughIsNextBlock | src/ir.rs:828-841 | The fall-through address remembered by a block's last conditional jump or call is the start of the next block; register calls and indirect jumps remember zero. |
| Conservation.LiftingKeepsHeaders | src/ir.rs:737-761 | Name, address, entry block and the ids and starts of the blocks carry over from the graph. |
| Backend.EmitFunctionLoop | src/backend.rs:199-219 | Emitting block by block in address order yields the specified program. |
| Backend.SanitiseIdentLoop | src/backend.rs:497-516 | The character loop yields the specified identifier. |
| Declarations.SanitisedIsIdent | src/backend.rs:497-516 | Sanitising always yields a C identifier, and leaves a name alone if and only if it is one. |
| Declarations.SanitisedExactly | src/backend.rs:497-516 | Each character that an identifier cannot have becomes an underscore, a leading digit gets one in front, and the empty name becomes _anon. |
| Declarations.CollectCalls | src/backend.rs:103-121 | Collects exactly the direct targets outside the program and exactly the external names. |
| Declarations.DeclareNames | src/backend.rs:123-140 | Declares exactly the sanitised external names: library functions, and nothing else, by prototype, the others as stubs. |
| Declarations.DeclareTargets | src/backend.rs:142-164 | Adds declarations for exactly the names by which outside targets are called. |
| Declarations.EmitDeclarations | src/backend.rs:86-169 | The names declared before the bodies are exactly those of the emitted functions and those printed at call sites; of the external ones exactly the library functions get prototypes. |
| Declarations.CallFitsExactly | src/backend.rs:333-348 | A call's arguments fit a declaration of its name if and only if an external call meets a prototype that takes six arguments, or a direct call meets anything but a prototype with parameters. |
| Declarations.LibcParamsExactly | src/backend.rs:19-54 | The functions declared by prototype are exactly those whose parameters are known. |
| Erasure.InstructionErased | src/backend.rs:380-401 | For every instruction text the printed lines do not depend on the versions. |
| Layout.EmissionIsFlat | src/backend.rs:199-219 | For every function text: the emitted program is the instruction list in address order, each leader preceded by its label, then the default return. |
| Layout.SortingSorts | src/backend.rs:201-202 | Blocks are arranged by start address, none lost and none invented. |
| Positions.LeaderIsLabelled | src/backend.rs:204-216 | A leader's address is a label, at the leader's position. |
| Positions.LabelExists | src/backend.rs:204-216 | An address is a label if and only if it is the address of a leader. |
| Gotos.TargetsAgree | src/cfg.rs:279-286 | From a target in the 0x form the CFG and the lifter read the same address. |
| Gotos.GotosAreTargets | src/backend.rs:306-312 | The gotos of the emitted program go exactly to the jump targets that the CFG sees. |
| Gotos.GotoClosure | src/cfg.rs:113-119 | A goto has a label if and only if its target is an instruction of the function. |
| Gotos.LabelsDistinct | src/backend.rs:204-216 | No label is declared twice. |
| Execution.RunInsn | src/backend.rs:199-219 | For any text: from the position of instruction k the program runs through its lines, one item after the other, and resumes where their outcome says. |
| FlatMachine.EffectExactly | src/backend.rs:306-312 | For any text with direct jumps: jmp goes to its target, a conditional jump goes there if and only if its condition is taken, returns leave, and everything else goes on or is undefined. |
| ControlFlow.StepExactly | src/backend.rs:199-219 | From instruction k a positive number of steps takes the program to where the instruction list goes from k, with the same state. |
| ControlFlow.TraceExactly | src/backend.rs:199-219 | For runs of every length: the program enters exactly the instructions that the list visits, in order, stands where the list does with the same state, and returns or is undefined exactly where the list does. |
| ControlFlow.NothingElseHappens | src/backend.rs:199-219 | Conversely, after any number of steps the program has entered exactly what the list visits in some number of steps. |
| ControlFlow.EveryRunIsAWalk | src/cfg.rs:153-243 | The instructions entered by any run, in order, are a walk of the graph from the entry; no label is ever missed. |
| ControlFlow.StepTakenExactly | src/cfg.rs:153-243 | Some state takes the program from instruction k to l if and only if the graph allows the step, k is not lifted to a return, and its lines are defined on some state. |
| ControlFlow.LeavesExactly | src/ir.rs:601-708 | The emitted lines return exactly where the CFG stops if and only if the instruction is not lifted to a return while the CFG lets it fall through. |
| ControlFlow.FunctionLeavesExactly | src/cfg.rs:104-105 | The same for a whole function. |
| ControlFlow.InterruptEndsEarly | src/ir.rs:708 | int and retf are lifted to returns although the CFG lets them fall through. |
| ControlFlow.EarlyEnd | src/ir.rs:601 | At such an instruction the program returns on every state while the graph goes on to the next instruction. |
| OperandMeaning.LiteralMeans | src/backend.rs:407-413 | The literal printed for any signed 64-bit immediate, the least included, has its value modulo 2^64 in C. |
| OperandMeaning.AddressMeans | src/backend.rs:436-469 | An emitted address evaluates to base + index * scale + displacement modulo 2^64. |
| OperandMeaning.EffectiveAddress | src/ir.rs:281-355 | From printed text through parsing and emission to evaluation: the effective address of section 3.7.5 of the Intel SDM, Vol. 1. |
| OperandMeaning.OperandEmitted | src/backend.rs:404-421 | An emitted operand evaluates to the operand's value on the processor. |
| Flags.CompareEmitted | src/backend.rs:292-300 | An emitted cmp packs equality, unsigned less and signed less of the operands' values into bits 0, 1 and 2. |
| Flags.ConditionEmitted | src/backend.rs:518-537 | An emitted condition never gets stuck and is true as `Taken` says. |
| Flags.CmpConditions | src/backend.rs:518-529 | After a cmp the ten equality, unsigned and signed conditions equal the architectural predicates over ZF, CF, SF and OF, for all 64-bit operands. |
| Flags.CmpReadableExactly | src/backend.rs:518-537 | A condition is right for all operands of a cmp if and only if it is one of the ten. |
| Flags.TestReadableExactly | src/backend.rs:302-305 | A condition is right for all operands of a test if and only if it is an equality or unsigned one. |
| Flags.TestSignedConditions | src/backend.rs:302-305 | A signed condition after a test is right if and only if the sign bit of the conjunction is clear. |
| Flags.Trichotomy | src/backend.rs:518-537 | Each condition is the negation of its opposite; on packed words exactly one of less, equal, greater and one of below, equal, above holds. |
| FlagRuns.FlagsStayPacked | src/backend.rs:292-305 | In every state reachable from a packed rflags, for any function that does not name rflags as a destination, rflags is in {0, 1, 2, 4, 6} and the comparisons are trichotomous. |
| Instructions.FaithfulIsSound | src/backend.rs:233-373 | A faithful instruction's lines take related states to related states and pass control the same way, and are undefined exactly on negating the least number. |
| Divergence.FaithfulExactly | src/backend.rs:233-373 | The emitted lines of an encodable instruction are right on all states if and only if the form is faithful. |
| Divergence.AluToMemory | src/ir.rs:454-455 | An ALU operation on memory goes wrong: its result is put into rax. |
| Divergence.StepInMemory | src/ir.rs:662-684 | inc and dec of memory go wrong. |
| Divergence.UnaryInMemory | src/ir.rs:804-817 | not and neg of memory go wrong: they are dropped. |
| Divergence.ShiftUnfaithful | src/backend.rs:269-274 | Shifts of memory and shifts by 64 or more go wrong. |
| Divergence.PushOfStackPointer | src/backend.rs:354-359 | push of an operand that uses rsp goes wrong. |
| Divergence.PopUnfaithful | src/backend.rs:360-365 | pop rsp and pop to memory go wrong. |
| Divergence.CmovMisread | src/backend.rs:314-317 | A conditional move on a condition that the flags' origin does not answer goes wrong. |
| Divergence.JccMisread | src/backend.rs:309-312 | A conditional jump on such a condition goes wrong. |
| Simulation.StepSimulated | src/backend.rs:233-373 | One step of the processor corresponds to a positive number of steps of the C program. |
| Simulation.RunSimulated | src/backend.rs:185-219 | The same for runs of every length in which only faithful forms are executed. |
| Correctness.DecompilationIsCorrect | src/ir.rs:478-762 | For every supported function, start state, choice of undefined flags and number of steps, the emitted program reaches a configuration with the same registers and memory. |
| Correctness.NeverStuck | src/backend.rs:185-219 | The emitted program never runs into undefined behaviour or a missing label while the least number is not negated. |
| Correctness.TerminationAgrees | src/backend.rs:185-219 | The emitted program returns if and only if the function stops. |
| Correctness.ResultsAgree | src/backend.rs:351-353 | When both stop, value, memory and registers agree, and the emitted rsp is eight below where a return was executed. |
| Correctness.NegationSticks | src/backend.rs:278-284 | Where the function negates the least number, the emitted program becomes undefined. |
| Correctness.StuckExactly | src/backend.rs:278-284 | The emitted program becomes undefined if and only if the function negates the least number. |
| SaveRestore.SaveThenRestore | src/backend.rs:354-365 | Pushing any registers but rsp, any body that keeps rsp and the saved slots, and popping in reverse restores the registers and rsp and changes nothing else. |
| SaveRestore.EnterThenLeave | src/ir.rs:686-695 | push rbp; mov rbp, rsp; a body that keeps rbp and the saved slot; leave: rbp and rsp are restored. |
| SsaErasure.ErasureIsSound | src/backend.rs:380-401 | For blocks of straight code that does not read itself, the versioned IR and the printed lines agree on the latest version of every register, on memory, on flags and on being undefined. |
| SsaErasure.ErasureExactly | src/backend.rs:380-401 | Dropping the versions of an opcode keeps its meaning from all states if and only if it does not read the version it defines. |
| SsaBlocks.BlockErasureIsSound | src/backend.rs:380-401 | The same for blocks that end in a jump or a return, with where control goes. |
| SsaBlocks.SubsetTyped | src/ir.rs:493-732 | The text of every straight subset instruction is lifted to one opcode of the shape that the erasure results require, which reads itself if and only if the instruction mentions its own destination. |
| SsaBlocks.SubsetErasable | src/ir.rs:769-800 | A block of straight subset instructions can be erased if and only if none mentions its own destination. |
| Misreadings.UnseenJumpExactly | src/ir.rs:427-429 | A goto is emitted for a jump that the CFG does not see if and only if the lower-case mnemonic is jmp or begins with j without a lock prefix, and as written is neither jmp nor one of the eighteen. |
| Misreadings.JrcxzForm | src/ir.rs:427-429 | jrcxz is such a jump. |
| Misreadings.JumpLabelledExactly | src/backend.rs:306-312 | A jump lifted to a goto has a label if and only if its target happens to lead a block. |
| Misreadings.UnprefixedTarget | src/cfg.rs:279-286 | A target without the prefix that the lifter reads as a number is read alike by the CFG if and only if it has no minus sign and is a single digit. |
| Misreadings.DoubleMinus | src/ir.rs:198-204 | Two minus signs cancel for the lifter, while the CFG reads no target. |
| Misreadings.PrintedTargetPrefix | src/ir.rs:192-212 | Capstone prints exactly the targets above nine with the prefix, so what it prints is read alike by both. |
| Misreadings.AtomicsNeverEmitted | src/ir.rs:527-613 | No instruction text is ever lifted to an atomic operation that the emitter prints as one. |
| Misreadings.SarExactly | src/ir.rs:465 | sar is lifted to a logical shift, which is right if and only if the number is not negative. |
| Widths.MovesAlike | src/ir.rs:509-512 | Whatever its operands, each of the seven moves prints the lines of mov. |
| Widths.NarrowRead | src/backend.rs:236-242 | The narrow value in memory is the low part of the 64 bits read there. |
| Widths.PlainMoveExactly | src/ir.rs:509-512 | From the text of movzx, movsx, movsxd and narrow mov: the emitted plain move gives the processor's value if and only if the extension leaves the 64 bits alone. |
| Mnemonics.HintsDoNothing | src/ir.rs:506-507 | nop, endbr64, endbr32, fnop and pause change nothing, whatever operands they have. |
| Mnemonics.CaseIgnored | src/ir.rs:493-500 | A mnemonic in upper case is lifted as the lower-case one. |
| Mnemonics.ForeignIsZero | src/ir.rs:371-375 | What is no register, number or memory operand is read as zero, also as a jump target. |
| Mnemonics.ForeignIsCalled | src/ir.rs:838-841 | A call of such a name is a call of the external function of that name. |
| Mnemonics.LockIsLost | src/ir.rs:493-500 | A locked ALU operation is lifted as the plain one. |
| Mnemonics.AtomicOpsExactly | src/backend.rs:322-332 | The atomic operations that could be printed are the five ALU operations of the same names. |
| Mnemonics.SyscallLifted | src/ir.rs:710-713 | syscall is a call of an external function of that name. |
| Mnemonics.IndirectCallLifted | src/ir.rs:828-835 | A call through a register or memory is lifted to that operand, and remembers the next address only through memory. |
| Mnemonics.SalForm | src/ir.rs:464 | sal is shl. |
| Mnemonics.MulExactly | src/ir.rs:533-542 | One-operand mul leaves the low half in rax, which is right if and only if rdx already holds the high half. |
| Mnemonics.SetExactly | src/backend.rs:318-321 | setcc writes the whole register, which is right if and only if the bytes above the lowest were zero. |
| Mnemonics.IndirectJumpGoesOn | src/ir.rs:849-855 | An indirect jump is lifted to a call that goes on to the next instruction, although the CFG lets control pass nowhere. |
| Calls.CallEnters | src/backend.rs:333-350 | The callee is entered in a state that differs only in rsp, lowered by 8, and in the remembered address in the eight bytes there. |
| Calls.LiftedCallEnters | src/ir.rs:828-842 | From any text: the callee is entered with the address after the instruction on top of the stack, or zero for a register call and an indirect jump. |
| Calls.ExternalArguments | src/backend.rs:341-343 | An external call hands over rdi, rsi, rdx, rcx, r8 and r9, in this order, under its sanitised name. |
| Calls.DirectArguments | src/backend.rs:337-340 | A direct call hands over nothing, under the name its address is resolved to. |
| Calls.IndirectTarget | src/backend.rs:344-346 | An indirect call goes to the value that its operand has after the push. |
| Calls.IndirectCallExactly | src/backend.rs:344-346 | That is the processor's target from every state if and only if the operand is a register other than rsp. |
| Misreadings.CallsDrift | src/backend.rs:333-350 | n emitted calls that return leave rsp 8 n below where it was. |

## Left out

- Reading binaries, locating the text section, symbols, Capstone and logging: I/O and foreign code. The disassembly is an input: contiguous or strictly ascending instructions, as each result says. In `Correctness` and `Simulation` it is the printed form of subset instructions; `Capstone` is the model's own account of Capstone's Intel syntax (numbers up to nine without prefix, `qword ptr`, absolute addresses as 64-bit patterns).
- src/main.rs, the command line and the C header, prototypes and white space: the emitted program is a syntax tree with an evaluator.
- Sub-registers, setcc, sar, one-operand mul, xchg, extensions, lock prefixes, segment and rip-relative operands, indirect jumps and calls are lifted and emitted in the model but are not part of the simulation theorem: the code does not preserve their meaning. `Widths`, `Mnemonics`, `Calls` and `Misreadings` have exact conditions for many of them.
- Callees: a call is an arbitrary function on the C state, and programs with calls are outside the simulation because the emitted return never pops the address that the emitted call pushes.
- An immediate spelled as minus 2^63 is read as zero (`OperandProofs.ImmediateRoundTrip`), so the subset's immediates exclude that one spelling; the same bits spelled as an unsigned pattern are included.
- Text beyond ASCII: trimming and lower-casing cover ASCII only.
- Panics and debug checks of the original: a `]` before the `[` of a memory operand (modelled as no text between brackets) and the negation of the least number in `parse_immediate` (modelled as wrapping, as a release build does).
- Version numbers are unbounded here and 32-bit in the original; temporaries (`VarBase::Temp`) are never created by the code and are not modelled, nor is `block_addrs`, which nothing reads.
- C integer types narrower than 64 bits are merged into the signed 64-bit type, which holds all their values; memory is flat, little-endian and byte-addressed, every address is readable and writable, and alignment is ignored. `process_memory` and the start value of `cpu.rsp` are not modelled: the start state is arbitrary.
- Overflow and carry flags after shifts, and the flags that the manual leaves undefined, are arbitrary in the processor model; the auxiliary flag is not modelled.
- Self-modifying code, faults, interrupts and addresses at or above 2^64.
- CfgBuilder.BuildCfg: requires strictly ascending addresses, which every disassembly has; for other lists the original is not modelled.
