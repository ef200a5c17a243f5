# M8 toolchain verification

This project models the M8 toolchain of 8th Circle Linux and proves, in Dafny 4.11, that its parts
fit together: the assembler compiles meaning, the virtual machine keeps it although every executed
cell is rewritten, the crazy-op planner's rituals do on the machine what the planner predicted, and
four small programs whose correctness rests on loops and linked memory do what they are for.

`dafny verify dfyconfig.toml` checks everything.

## How the model is built

The virtual machine is `Runtime.VM`, a class over the arrays of `src/runtime/m8.c`. Each of its methods
is proved equal to a function on an abstract `Machine.State`; the theorems are about that function. A host
call reads its frame and gets an answer (a return value and memory writes) from a script, an arbitrary
function of the call number; `exit` is modelled exactly.

The assembler is a set of functions (`Assembly`) that the loop methods of `Assembler` and the cached
encoder class `Frames.FrameEncoder` are proved to compute. Source starts as items with expression trees.

Between the two stand two assembly-level machines that know instructions, not glyphs. `Source.Src` keeps
two bookkeeping sets (opcode cells already ciphered, cells written as data) and refuses steps that would
read the one or execute the other. `Meaning.PlainRun` has no bookkeeping at all; its only demand is
that data accesses miss code cells. `Source.SimRun` proves that the virtual machine simulates the first,
`Meaning.PlainRunSafe` that the second never violates the contract of the first, and
`Delivery.LinesToMachine` composes both with macro expansion, assembling, printing, loading, lineage marking, the
installation of the arguments (`Arguments`) and startup.

The planner (`Inversion`, `Search`, `Planner`) is modelled with its own simulation, and `Straight` proves once
that a straight-line program whose instructions satisfy a local condition behaves as that simulation says.
`Ritual` and `Ceremony` show that every plan satisfies the condition; `Invocation` puts the macro into an
assembled, booted program, on time or, with `Late`, behind schedule. `Crossing` decides when control passes over data in
front of it, `Closing` when the planner's last check fails, and `Scrolls` applies all this to literal sources.

Models and specifications share definitions, and a wrong one could be wrong on both sides. So what the shared ones
mean is stated once more in numbers, without them: the machine's step operation by operation (`InstructionSet`), the
cells and the effect of every mnemonic (`Mnemonics`), what the assembler takes and refuses (`Acceptance`), the search
over step lists (`Runways`), every answer and the whole code of the planner (`Verdict`, `Shipped`), and, beside their
definitions, the argument block, the loader's text, the oracle's bytes, the shell's names and limits and the MFS
image.

The scroll programs are classes over the machine's word array (`Shell.Msh`, `MfsCat.Cat`) or over file sizes and
offsets (`Decimal.Printer`); the file-system oracle is a directory tree with path resolution (`OracleTree`).

## What the proofs found

- Data placed in front of `start` is charged ticks by the layout although the startup jump skips it. The D a macro
  is planned for is ahead of the machine's D by exactly those ticks, and for no other reason
  (`Invocation.OnTimeExactly`). The live-cell scroll shown in the documentation of the macro (lines 393 to 403) declares
  seven such cells: its macro is planned for tick 22 and reached with D at 15 (`Scrolls.DocumentedLate`). The demo that
  is shipped has its data behind the macro and prints OK (`Scrolls.DemoPrints`). A plain macro seven or more ticks late
  runs to its halt and leaves its cell as it was (`Invocation.LateMacro`). At other lags, and for late live-cell macros,
  the result depends on the dead glyph cells the ritual then works on; `Invocation.LateMacroMeets` gives it in terms of
  the first of them.
- The tick model charges data in the path of control one tick a cell, on the ground that control walks over no-op
  fillers. That is so for the cells of a `zero N` (`Invocation.ReservedAdvance`). Cells the startup code initialises hold
  their values by then: such an item is crossed in its charged ticks if and only if every value is printable and decodes
  at its own address to an operation that takes C and D one cell on (`Invocation.DataExactly`). That excludes the halt,
  `i` and `j` unless the cell under D already holds C or D, and every extension glyph except a jump that happens to lead
  to the next cell. The first value that does not advance decides what happens (`Invocation.InitialisedDataStops`).
  `start: word 0` stops with code 127, `start: word 63` halts, `start: word 50` is crossed (`Scrolls.StartWordRuns`).
- The row of the hop instruction `j` records D after the hop; all other rows record D before the instruction.
  `Ceremony.RitualCorrect` follows the code.
- `plan_entry` searches from `start_a`, but the plan begins with `seta 0`. The ritual is correct from any A, and the
  closing check fails exactly when the runway that was found, driven from zero, does not rewrite the value into its
  successor (`Closing.ClosingExactly`). With `start_a` a multiple of 59049 that never happens
  (`Ceremony.InternalErrorsUnreachable`); `plan-entry 0 --start-a 29523` starts on the least mask, finds nothing to do
  and fails (`Closing.StartOnMaskFails`).
- A `msh` argument that fills the argument buffer to its last cell and is followed by LF gets no NUL. The exact
  condition for a correct parse is `ShellParse.ParsesExactly`; the line `c` with one argument of 512 bytes, typed into a
  fresh shell, fails (`ShellParse.ExactFillFails`).
- A command word of more than 24 bytes loses its 25th byte, and the rest is parsed as arguments
  (`ShellParse.OverlongCommand`).
- The digit ladders are right exactly for values of at most K digits whose first remainder fits one transfer of 8192
  bytes. For K = 4 the second condition follows from the first; for K = 5 it does not (`Decimal.FivePositionsClip`).
- The image limit checked by the assembler and the loader (59049 cells) lies above the argument block at 58000, and the
  argument count is always written there. A loaded image survives if and only if it has at most 58000 cells
  (`Delivery.BootedExactly`); an image of 58001 no-op glyphs loads and does not (`Delivery.TooLongByOne`).
- The decode table XLAT1 holds the backslash twice and no full stop, so 93 of its 94 entries differ
  (`Glyphs.DecodeTableRepeats`).

## Model

| member | source | states |
|---|---|---|
| Words.CrazyTrits | src/runtime/m8.c:58-75 | For any width, trit i of the crazy operation is the entry of the table with rows 1 0 0, 1 0 2 and 2 2 1 at the operands' trits i |
| Words.CrazyLoop | tools/m8crazy.py:117-129 | The place-value loop computes the crazy operation |
| Words.TritsRoundTrip | tools/m8crazy.py:93-110 | Values below 3^width survive conversion to trits and back |
| Words.TritsRoundTripBack | tools/m8crazy.py:93-110 | Trit lists survive conversion to a number and back |
| Words.RotateTrits | src/runtime/m8.c:77-80 | For any width, rotating moves the lowest trit to the top and every other trit down |
| Words.RotateFullCircle | tools/m8crazy.py:132-135 | As many rotations as there are trits restore any value |
| Words.MachineRotates | src/runtime/m8.c:77-80 | The machine's rotation moves the lowest of ten trits to the top and keeps the order of the rest |
| Words.TenRotations | src/runtime/m8.c:77-80 | Ten machine rotations of any word restore it |
| Glyphs.ValidOpsEncode | tools/m8asm.py:374-380 | Every operation the machine accepts has a glyph at every address |
| Glyphs.DecodePeriod | src/runtime/m8.c:89-92 | Decoding depends on the address only modulo 94 |
| Glyphs.DecodeTableRepeats | src/runtime/m8.c:31-33 | The decode table repeats exactly one glyph, the backslash at positions 47 and 56, and lacks the full stop |
| Glyphs.EncodeUnique | tools/m8asm.py:374-389 | At each address the encoder's cell is the only one that decodes to the operation |
| Glyphs.EncodesExactly | tools/m8asm.py:374-380 | The encoder knows exactly the printable characters but the full stop |
| Glyphs.CipherInverse | src/runtime/m8.c:35-37 | The self-cipher is a permutation of the printable cells |
| Glyphs.GenerationsApart | src/runtime/m8.c:169-176 | Different cells stay different after any number of cipher generations |
| Frames.DecodeSpelling | src/runtime/m8.c:182-197 | Any spelling of a word, wherever it lies in memory, decodes to the word |
| Frames.FrameInDigits | src/runtime/m8.c:182-197 | A frame's word is its five cells' digits, cell minus 33, lowest first to base 94, modulo 59049, read around the end of memory, and 0 if a cell is not printable |
| Frames.EncodeFrameLeast | tools/m8asm.py:391-428 | The search succeeds exactly when an acceptable spelling exists, and returns the numerically least one |
| Frames.SearchPeriod | tools/m8asm.py:391-428 | Searches at addresses equal modulo 94 have the same result, so the cache key is sound |
| Frames.TryCandidate | tools/m8asm.py:404-425 | The digit loop accepts a candidate exactly when all five cells are valid operations at their addresses |
| Frames.FrameEncoder.Encode | tools/m8asm.py:391-428 | With any cache contents built by earlier calls, the answer is that of a fresh search |
| Machine.StepFrame | src/runtime/m8.c:595-771 | A step changes no cell but its data writes and the executed one, and never the lineage table |
| Machine.ExecutedCell | src/runtime/m8.c:169-176 | The executed cell becomes its cipher, and so does its expected value if it has lineage |
| Machine.LineageStep | src/runtime/m8.c:134-176 | One step keeps every marked, untouched cell in lineage |
| Machine.LineageForever | src/runtime/m8.c:134-176 | From any state with lineage, after any number of steps, every marked cell neither spoilt before nor touched since is printable and dispatches as its original operation |
| Machine.CellGenerations | src/runtime/m8.c:169-176 | Over any run, a printable cell no data write hits holds its original content ciphered once per execution |
| Machine.RunSplit | src/runtime/m8.c:773-782 | Running m + n steps is running n steps after m |
| Loader.LoadedIsValid | src/runtime/m8.c:211-241 | Whatever loads is non-empty, fits in memory, is printable and has every cell valid at its address |
| Loader.LoadsExactly | src/runtime/m8.c:211-241 | A text is an image if and only if it is not a raw dump, shows only white space and glyphs before any NUL, and its glyphs are one to 59049 cells, each a valid operation at its address; the cells are those glyphs |
| Loader.WrapShape | tools/m8asm.py:658-660 | Every 95th character of the printed image and the last are newlines, the others are the cells in order |
| Loader.PrintLoadRoundTrip | tools/m8asm.py:658-660 | Loading the wrapped text of a valid image gives the image back cell for cell |
| Loader.WalkAhead | src/runtime/m8.c:134-155 | The lineage walk marks only cells at or behind its position that decode to extension operations |
| Runtime.VM.LoadGlyphImage | src/runtime/m8.c:211-241 | The in-memory loader accepts the texts the specification accepts, stores their cells and fills the tail by the crazy recurrence |
| Runtime.VM.FillTail | src/runtime/m8.c:82-87 | Every cell behind the image is the crazy of its two predecessors; images of fewer than two cells leave memory alone |
| Runtime.VM.PrepareLineage | src/runtime/m8.c:134-155 | The seed and expected arrays mark exactly the walked extension cells |
| Runtime.VM.InstallArguments | src/runtime/m8.c:372-397 | Count, vector and strings are written as specified; arguments that no longer fit end the loop |
| Arguments.InstalledFrame | src/runtime/m8.c:372-397 | The count cell always holds the clipped count, at most 32, and nothing below cell 58000 or outside the argument cells changes |
| Arguments.ArgumentFound | src/runtime/m8.c:372-397 | Slot k points at argument k as a NUL-terminated string if it and all before it fit, and is zero otherwise |
| Arguments.BlockInNumbers | src/runtime/m8.c:372-397 | The argument block cell by cell: the count, at most 32, at 58000, the address 58016 at 58001, 32 slots and a zero from 58016 on, strings from 58100 on, each with its NUL and ending below 59049, the cells between as they were |
| Runtime.VM.DecodeFrameWord | src/runtime/m8.c:182-197 | The digit loop reads the frame word modulo 59049, wrapping at the end of memory |
| Runtime.VM.Trap | src/runtime/m8.c:399-420 | A host call passes A for operands equal to 59047, sets A and the error flag, applies the answer's writes |
| Runtime.VM.ExecuteClassicOp | src/runtime/m8.c:619-646 | Each classic operation has its specified effect on registers, streams and memory |
| Runtime.VM.ExecuteExtensionOp | src/runtime/m8.c:647-756 | Each extension operation has its specified effect on registers, streams and memory; InstructionSet says in numbers what that is |
| Runtime.VM.SelfCipherExecutedCell | src/runtime/m8.c:169-176 | Rewrites the executed cell and, with lineage, its expected value |
| Runtime.VM.StepOnce | src/runtime/m8.c:595-771 | One call is one step of the specified machine, whole state; the InstructionSet rows say what a step does |
| Runtime.VM.RunSteps | src/runtime/m8.c:773-782 | A bounded run is that many specified steps; the code is the exit code, or 124 when the bound is hit |
| InstructionSet.BranchStep | src/runtime/m8.c:656-677 | In every state whose effective operation is `?`, the next C is the first operand if mode 0, or mode 1 and A zero, or mode 2 and A not zero, or mode 3 and the error flag, or mode 4 and no error flag, and otherwise 11 cells on; nothing else but D and the opcode cell changes |
| InstructionSet.JumpStep | src/runtime/m8.c:648-756 | `!` goes to its operand, the backquote to the word at its operand |
| InstructionSet.ImmediateStep | src/runtime/m8.c:678-756 | `#` sets A to its operand, `+` and `-` add and subtract it modulo 59049, six cells on |
| InstructionSet.LoadStep | src/runtime/m8.c:678-756 | `~` loads the operand's cell, `^` the cell that one points at, `[` and `]` add and subtract it modulo 59049, `:` gives 0 if A equals it and 1 otherwise |
| InstructionSet.StoreStep | src/runtime/m8.c:678-756 | `=` writes A to the operand's cell, `$` to the cell that one points at, and no other cell changes but the opcode's |
| InstructionSet.TrapStep | src/runtime/m8.c:399-593 | `@` passes A for each argument operand equal to 59047; call 60 halts with the first argument modulo 256; the seventeen supported calls get the script's answer and writes, every other one -38; A is the answer modulo 59049, the error flag its sign |
| InstructionSet.PointerStep | src/runtime/m8.c:619-646 | `j` moves D behind the word under D, `i` moves C behind it |
| InstructionSet.RewriteStep | src/runtime/m8.c:619-646 | `*` and `p` leave the rotated word, or the crazy of A and the word, both in A and under D |
| InstructionSet.StreamStep | src/runtime/m8.c:619-646 | `/` takes the next input byte or 59048, `<` prints A modulo 256 unless A is 59048, `v` halts in place |
| InstructionSet.OtherStep | src/runtime/m8.c:595-646 | A cell that is not printable stops the machine with code 127; every other operation only moves C and D on |
| Source.FetchMatches | src/runtime/m8.c:157-201 | A placed instruction is fetched as its operation with its operands, whatever cipher generation its opcode is in |
| Source.ExecuteMatches | src/runtime/m8.c:595-765 | With agreeing registers and reads, executing the operation is the instruction's effect, for every instruction |
| Source.SimStep | src/runtime/m8.c:595-771 | One assembly-level step is one machine step, and the relation is kept |
| Source.SimRun | src/runtime/m8.c:595-782 | Simulation over whole runs, loops included: same registers, streams, host calls and readable cells; untouched instructions stay executable |
| Inversion.MasksExact | tools/m8crazy.py:228-247 | For any width, the mask list is strictly increasing, holds exactly the m with crazy(m, source) = target, and its length is the mask count |
| Inversion.IncrementMasks | tools/m8crazy.py:50-68 | x to x + 1 is solvable exactly when x mod 3 is not 2, with 2^(upper trits other than 1) masks |
| Inversion.SmallestSeedLeast | tools/m8crazy.py:452-471 | The chosen seed is the numerically least one; none is returned only when none exists |
| Inversion.ChainTotal | tools/m8crazy.py:474-488 | For any width a chain always exists, has one or two steps (one exactly when a direct seed exists) and drives A to the target |
| Inversion.ChainSeeds | tools/m8crazy.py:467-488 | The chain's seeds are the least ones, straight to the target or through 59048 |
| Search.BfsLoop | tools/m8crazy.py:188-216 | The queue loop with its seen set computes the search function |
| Search.BfsShortest | tools/m8crazy.py:188-216 | With limit one and the empty path allowed, the result is a sound path of minimum length, or nothing exactly when nothing lies within the depth |
| Search.FollowsRunway | tools/m8crazy.py:164-181 | A path in the runway graph is a runway: its steps are allowed and its operations drive A to the path's end |
| Search.FindRunwayPlanForMasks | tools/m8crazy.py:276-295 | The loop over masks computes the plan function |
| Search.FirstReachableMask | tools/m8crazy.py:257-295 | The plan belongs to the first mask reachable in the graph and is shortest for it; no plan means no mask is reachable (over step lists: Runways.SearchExactly) |
| Runways.EdgesInOrder | tools/m8crazy.py:164-181 | Out of every word lead, in this order, the combination with each seed and each seed's rotation |
| Runways.SearchExactly | tools/m8crazy.py:188-295 | Without the graph: the search fails if and only if no list of at most maxDepth steps, each p or * with a seed among the constants, leads from the start to any of the masks; what it returns is such a list, to the first mask any of them reaches, and no shorter list reaches that mask |
| Planner.JunkSearch | tools/m8crazy.py:559-577 | The junk loop finds the least workable count and reports the first pair's slack as the margin |
| Planner.LeastJunkMargin | tools/m8crazy.py:559-575 | The first pair is always the worst, no smaller count works, and a positive count leaves a margin of 1 to 5 |
| Planner.SimulateRows | tools/m8crazy.py:631-666 | The row loop computes the planner's simulation, and stops without rows exactly when p, * or j looks up a cell that is not tracked |
| Straight.RunRow | tools/m8crazy.py:631-666 | For any straight-line code meeting a local condition, the machine's C, D and A match every simulated row |
| Straight.RunDone | tools/m8crazy.py:631-690 | Such code runs to its halt, prints what the simulation prints and leaves the simulated cells |
| Ritual.PlannedWell | tools/m8crazy.py:491-712 | Every returned plan has the layout, instruction list, rows and checks the ritual argument needs |
| Verdict.DefaultSeeds | tools/m8crazy.py:24-40 | Without constants in the request the seeds are these fifteen words |
| Verdict.NormalizeExactly | tools/m8crazy.py:138-148 | The seeds are exactly the given values modulo 59049, each once |
| Verdict.MasksTried | tools/m8crazy.py:241-247 | The masks tried are increasing, all rewrite the value into its successor, are as many as the limit allows, and no mask left out is below one of them |
| Verdict.RefusalsExactly | tools/m8crazy.py:491-537 | For every request: refused for its characters iff they are not two glyphs, for its value iff that is 2 modulo 3, for its runway iff no step list within the depth reaches a mask tried |
| Verdict.PlacementExactly | tools/m8crazy.py:540-628 | Junk is the least count that brings the first seed below its own store and missing iff 255 do not; the block starts at D + junk + 2 pairs + 1 and is refused iff it ends above 58000; otherwise the live check decides |
| Verdict.LiveExactly | tools/m8crazy.py:617-628 | The live check names the first target in the code, at or above 58000 or in the block, in that order of reasons, and passes iff there is none |
| Verdict.PlanSpelledOut | tools/m8crazy.py:540-690 | Every plan instruction by instruction: junk, seed pairs with their words and places, reset, runway, hop, rewriting p, both proofs, newline, halt; its rows number the ticks; it is for its request |
| Ceremony.SeedPlacement | tools/m8crazy.py:540-628 | Every seed write hits a cell outside all code still to be executed, below the argument block |
| Ceremony.AtFinal | tools/m8crazy.py:582-690 | D reaches the mutable cell exactly at the final p, after the whole runway, with the chain cells untouched, in block and live mode |
| Ceremony.PlanPrints | tools/m8crazy.py:582-690 | The plan prints its two characters and a newline and nothing else |
| Ceremony.RitualCorrect | tools/m8crazy.py:491-712 | Entered at its cell with its D (and, in live mode, the cell holding the value), every plan runs as its rows say, prints, halts and leaves value + 1 |
| Ceremony.RitualOnMachine | src/runtime/m8.c:595-771 | The same on the virtual machine, from any state simulating the entry: C, D and A match every planner row, then the halt, the output and value + 1 in the cell |
| Ceremony.InternalErrorsUnreachable | tools/m8crazy.py:553-690 | Missing chains and look-ups of untracked cells never occur, missing junk not when code is five cells ahead of D, a disagreeing simulation not from A = 0 |
| Ceremony.NeverUntracked | tools/m8crazy.py:652-660 | Whatever runway and chains the searches deliver, every cell p, * or j looks up is one the simulation tracks |
| Closing.ClosingExactly | tools/m8crazy.py:523-690 | Once the search has found a runway, the plan is returned iff it can be placed and the runway drives home from zero, and the closing check fails iff it can be placed and the runway does not |
| Closing.StartOnMaskFails | tools/m8crazy.py:528-690 | The request plan-entry 0 --start-a 29523 fails the closing check |
| Assembly.ExpandRechain | tools/m8asm.py:278-307 | The macro loop emits the linking pairs in order, pending labels on the first |
| Assembly.LayOutLoop | tools/m8asm.py:312-371 | The phase-two loop computes the layout function: addresses, ticks, plans, labels |
| Acceptance.PlaceExactly | tools/m8asm.py:138-199 | Sizes and ticks of every kind of item in numbers; a macro takes those of its plan for the place it stands at, a live-cell macro of its plan for address 57000, and is refused for its planner's reason |
| Acceptance.LaysOutExactly | tools/m8asm.py:312-371 | A source fails to lay out if and only if one of its macros is refused where the items before it put it |
| Agreement.LiveSizeFixed | tools/m8asm.py:338-371 | A live-cell plan has the same size for any two target addresses, so the canary size is the real size |
| Agreement.EmitSize | tools/m8asm.py:138-199 | What an item emits has the planned size and the counted initializers; the re-plan never changes size |
| Agreement.AssembleInStep | tools/m8asm.py:489-619 | The assembly loop never meets a misplaced item, and its cells and pairs add up to the layout's counts |
| Agreement.LayoutAgreement | tools/m8asm.py:463-655 | Every item is emitted at its planned address with its planned size, the initializer count is the pair count, the materializer has exactly its prefix length, and the internal errors are unreachable |
| Agreement.LabelsResolve | tools/m8asm.py:312-371 | A label's final value is the final address of the item it stands before, and the startup code jumps to start |
| Agreement.NoStartLabel | tools/m8asm.py:641-655 | Without a start label the startup code jumps to the first cell behind itself |
| Agreement.PlannerNeverAtFault | tools/m8asm.py:312-371 | With the assembler's tick and cell counts, no source fails for missing junk, missing chains, an untracked cell or a disagreeing simulation, at sizing or at emission |
| Verdict.MacroAsks | tools/m8asm.py:312-371 | A macro asks for O and K, from A zero, at most four steps over the default seeds and the sixteen least masks |
| Verdict.MacroRefused | tools/m8asm.py:312-371 | A macro is refused for its value iff that is 2 modulo 3, and for its runway iff four steps over the fifteen seeds reach none of its sixteen least masks |
| Shipped.RoomPlansExactly | tools/m8asm.py:312-371 | With the code ahead of D and the live cell clear of code and arguments, a macro is planned if and only if its value is not 2 modulo 3 and four steps reach one of its masks |
| Shipped.PlansBehindItsCode | tools/m8asm.py:575-612 | A live cell at or behind the end of the code planned for address 57000 is granted too |
| Shipped.TwentySevenTried | tools/m8crazy.py:228-247 | From 58017 to 58018 the mask 27 is among the sixteen tried |
| Shipped.FourSteps | tools/m8crazy.py:164-216 | Combining with 0, 80, 26 and 0, all default seeds, leads from zero to 27 |
| Shipped.FiftyEightPlans | scrolls/tests/crazy_inc_macro.m8a:1-2 | So both kinds of macro on 58017, the value of the shipped scrolls, are planned wherever there is room |
| Assembler.AppendFiller | tools/m8asm.py:484-486 | Filler cells are the no-op glyphs of their addresses |
| Assembler.EncodeWordsLoop | tools/m8asm.py:497-499 | Frame after frame through the cache, at running addresses |
| Assembler.AssembleProgramLoop | tools/m8asm.py:489-619 | The loop with its growing lists computes the program; the Mnemonics rows say which instruction each mnemonic becomes |
| Assembler.BuildMaterializer | tools/m8asm.py:622-638 | The startup loop emits set and store for every pair and the closing jump |
| Assembler.AssembleGlyphLoop | tools/m8asm.py:641-655 | The whole back end through the cached encoder computes the image function |
| Acceptance.EvalExactly | tools/m8asm.py:431-460 | An expression has a value if and only if every label it names is defined |
| Acceptance.EmitsExactly | tools/m8asm.py:489-574 | An item is emitted if and only if its labels are defined, a trap has one to six arguments and a pointer list at least one; which error it gives otherwise |
| Acceptance.MacroEmitsExactly | tools/m8asm.py:575-612 | A macro is emitted as it was planned; a live-cell macro is planned again for the final value of its address, and that plan or its refusal is the result |
| Acceptance.PiecesExactly | tools/m8asm.py:374-428 | A list of instructions and fillers can be written if and only if every operation is a printable character but the full stop and every operand has a spelling at its address |
| Acceptance.AssemblesExactly | tools/m8asm.py:641-655 | A source that lays out becomes an image if and only if each item is emitted and can be written at its final address, the startup code can be written at 0, and both fit 59049 cells |
| Compiler.PiecesValid | tools/m8asm.py:489-619 | Every emitted cell is printable and valid at its address |
| Compiler.WalkPieces | src/runtime/m8.c:134-155 | The lineage walk over encoded pieces marks their extension opcodes and no frame or filler cell |
| Compiler.WordsReadBack | src/runtime/m8.c:182-201 | Frame k of an encoded operand list reads back as operand k |
| Compiler.BootSim | src/runtime/m8.c:134-155 | A machine with the image loaded and marked simulates the assembly machine at address 0 |
| Startup.ImageIsGood | tools/m8asm.py:641-655 | Every assembled image starts with its startup code, and its init targets ascend behind it and are not code |
| Startup.MaterializerCorrect | tools/m8asm.py:622-655 | From zero registers, after exactly 2n + 1 steps C is start, D is 2n + 1, every initialised cell holds its word, no target lies in the startup code, all other program cells are unchanged |
| Meaning.PlainRunSafe | tools/m8asm.py:489-619 | A plain run whose accesses miss code is a run of the bookkeeping machine with the same states |
| Meaning.CompilerCorrect | tools/m8asm.py:489-655 | After startup, n plain steps are n machine steps: same registers, flags, host calls, output and data; framed opcodes dispatch as themselves however often executed |
| Delivery.ImageClassicOnly | tools/m8asm.py:571-574 | If op directives are classic, all emitted classic pieces are, those of expanded macros included |
| Delivery.PrintLoadMark | tools/m8asm.py:658-660 | The printed image loads back cell for cell, and the walk marks exactly its framed instructions' opcodes |
| Delivery.Boot | src/runtime/m8.c:825-833 | Loading, marking and installing any arguments gives a started machine for every accepted text; its image is intact if and only if it has at most 58000 cells |
| Delivery.BootedExactly | src/runtime/m8.c:372-377 | The installation of the arguments leaves an image intact if and only if it ends below the argument block |
| Delivery.TooLongByOne | src/runtime/m8.c:225-241 | 58001 no-op glyphs load as an image that never survives the installation |
| Delivery.LineageAtStart | src/runtime/m8.c:134-155 | A started machine has lineage at every marked cell the arguments did not hit, and no marks elsewhere |
| Delivery.LineageFromStart | src/runtime/m8.c:134-176 | From the start of any accepted image, in every reachable state, a marked cell that neither the arguments nor a data write hit is printable, matches its expected value and dispatches as the glyph it was loaded as |
| Delivery.SourceToMachine | tools/m8asm.py:641-660 | Source to image to text to machine to run: n plain steps of the source are n machine steps after startup |
| Delivery.LinesToMachine | tools/m8asm.py:663-680 | From source lines, rechain lines expanded, through the printed image to a started machine: n plain steps are n machine steps after startup |
| Delivery.DataDelivered | tools/m8asm.py:542-567 | After startup, cell i of every data item holds the item's i-th declared value, at its final address |
| Delivery.ItemInImage | tools/m8asm.py:489-619 | Whatever an item emits is in the program at its final address |
| Mnemonics.FramedCells | tools/m8asm.py:489-619 | In every assembled image the cell at a framed item's address decodes to its mnemonic's glyph, from a literal table of twelve, and the frame behind it reads back as the operand's value |
| Mnemonics.BranchCells | tools/m8asm.py:64-82 | A branch item is `?` with the target first and its mode 0 to 4 second, from a literal table |
| Mnemonics.TrapCells | tools/m8asm.py:489-619 | A trap item is `@` with its arguments' values in order and zeros behind them |
| Mnemonics.OpCells | tools/m8asm.py:568-574 | An op item is one cell that decodes to its character |
| Mnemonics.ExpressionForms | tools/m8asm.py:431-460 | Sums, differences, negations and labels have the values their notation says |
| Mnemonics.MovedLabel | tools/m8asm.py:431-460 | Moving a label by d moves an expression by d times the label's signed occurrences |
| Mnemonics.FramedRuns | tools/m8asm.py:489-619 | Where a plain run stands at a framed item it goes on if and only if the item's accesses miss code, and the machine's next step then has the effect of the mnemonic on its operand's value, written out for all twelve |
| Mnemonics.BranchRuns | tools/m8asm.py:64-70 | The machine's step at a branch item goes to the target exactly under the mnemonic's condition, otherwise to the next item |
| Mnemonics.TrapRuns | tools/m8asm.py:489-619 | The machine's step at a trap item makes the host call of its arguments |
| Invocation.OnTimeExactly | tools/m8asm.py:312-371 | When control comes to a macro from start, the machine's C is the plan's, and its D is behind the planned one by exactly the ticks charged in front of start, so on time if and only if there are none |
| Invocation.StretchFalls | tools/m8asm.py:173-199 | From start, instructions that spare what is still to come and data whose cells advance take exactly the ticks the layout charges, with C on the next item's address and the code ahead executable |
| Invocation.DataExactly | tools/m8asm.py:173-199 | Control that comes to a data item crosses its n cells in the n charged ticks if and only if every declared value is printable and decodes at its own address to an operation that advances C and D by one |
| Crossing.AdvancesExactly | src/runtime/m8.c:595-771 | For every state: one step takes C and D one cell on exactly when the cell is printable and its operation is not a halt, not a pointer operation that leads elsewhere, and not an extension operation except a jump to the next cell |
| Crossing.WalksExactly | src/runtime/m8.c:595-771 | With D behind C, n unmarked cells are crossed in n ticks if and only if each advances, a condition on memory before the first of them runs; memory, accumulator and input are then the predicted ones |
| Crossing.FirstOffender | src/runtime/m8.c:595-771 | The cells before the first that does not advance are crossed; at it the machine stops with 127, halts, skips operands or goes on elsewhere, according to its glyph |
| Invocation.InitialisedDataStops | tools/m8asm.py:173-199 | The first declared value that does not advance decides: the values before it are crossed, and at it the machine stops (127 if it is not printable, exit code kept at a halt) or goes on with C or D elsewhere |
| Invocation.StartsAtValues | tools/m8asm.py:641-655 | A data item at start meets that condition's premises: the machine comes to it straight after startup, its cells holding the declared values |
| Invocation.ReservedAdvance | tools/m8asm.py:484-486 | The cells of a zero N that nobody has written always advance |
| Invocation.PlainReaches | tools/m8asm.py:312-371 | If the plain program falls through a stretch of instructions from start to a macro, the machine reaches it, with the plain program's output and data |
| Invocation.MacroRuns | tools/m8asm.py:575-612 | A crazyinc or live-cell macro reached from start through instructions and data that fall through, on time, makes the machine follow its plan row by row, print OK and a newline, halt and leave value + 1 in its cell |
| Invocation.LateMacro | tools/m8asm.py:575-612 | A crazyinc macro reached seven or more ticks late, or at any lag at which no crazy meets its cell, runs to its halt and leaves the cell at the old value |
| Invocation.LateMacroMeets | tools/m8asm.py:575-612 | With L ticks charged in front of start, the ritual of any macro begins L cells below its first seed with A zero, and its first crazy, rotate or hop works on the word found there |
| Late.LateNeverIncrements | tools/m8crazy.py:582-690 | Any block-mode plan entered that far behind its D, from any state simulating the entry, rewrites nothing in its mutable cell |
| Late.LateMeets | tools/m8crazy.py:582-690 | The same for any plan, block or live, entered any number of cells behind its D, from any state simulating the entry |
| Scrolls.DocumentedLate | tools/m8asm.py:312-371 | However the documented live-cell scroll assembles, its macro is planned for tick 22 and the machine comes to it with D at 15 |
| Scrolls.DemoPrints | scrolls/tests/crazy_cell_demo.m8a:1-7 | However the shipped demo assembles, the booted machine prints OK and a newline, halts, and the live cell holds 58018 |
| Scrolls.DemoLaysOut | scrolls/tests/crazy_cell_demo.m8a:1-7 | The shipped demo does lay out, and its macro is granted again at the address its live cell ends up at |
| Scrolls.LoneMacroLaysOut | scrolls/tests/crazy_inc_macro.m8a:1-2 | So does the scroll that only says crazyinc 58017 |
| Scrolls.StartWordRuns | tools/m8asm.py:173-199 | However they assemble, start: word 0 stops with code 127 after its startup, start: word 63 halts, and start: word 50 is crossed with C at 19 and D at 4 |
| Scrolls.StartWordAssembles | tools/m8asm.py:391-428 | Those three scrolls do lay out and assemble |
| Rechain.LinksEmit | tools/m8asm.py:278-307 | Each expansion entry assembles to setting A to link k and storing it in cell k |
| Rechain.RechainRuns | tools/m8asm.py:278-307 | Running the expansion leaves a fresh pointer chain in the buffer and changes nothing else |
| Rechain.RechainAssembled | tools/m8asm.py:278-307 | A source line rechain LABEL N, expanded, laid out and assembled, is the linking code for the buffer its label resolves to, which no instruction overlaps |
| Rechain.RechainOnMachine | tools/m8asm.py:278-307 | Whenever a run comes to such a line, 2N machine steps later the labelled buffer is a fresh chain, control is behind the macro, and no other data cell, output or host call has changed |
| OracleTree.MakeTree | tools/mkoracle.py:29-48 | On any file system: fails exactly when a node of the wrong kind is in the way, otherwise adds exactly the missing oracle nodes, lists every node but the two inner directories, and yields the shipped oracle exactly when nothing foreign lay below /.m8 |
| OracleTree.ProbeFinds | scrolls/msh.m8a:31-226 | With slash and dot resolution, a probe for a non-NUL byte opens exactly when the magic file exists |
| OracleTree.NulProbeOpens | scrolls/msh.m8a:444-452 | A NUL byte would open the directory, which is why it is tested first |
| OracleTree.SeparatorProbe | tools/mkoracle.py:17-26 | A separator probe opens exactly for the separators filed in its directory |
| OracleTree.EqualityProbe | tools/mkoracle.py:29-48 | An equality probe opens exactly when the two bytes are equal |
| OracleTree.TreeInBytes | tools/mkoracle.py:15-48 | Exactly which names below /.m8 are files and directories, byte for byte |
| OracleTree.ProbesInBytes | scrolls/msh.m8a:735-758 | The byte strings msh opens: below x for LF, CR and space, below n, r and s for one of them each, below eq for equal bytes |
| ShellLine.ConsumesOneLine | scrolls/msh.m8a:444-667 | For every event stream the reader consumes exactly through the first LF, end or read error |
| ShellLine.ReadWholeLine | scrolls/msh.m8a:444-667 | A line and its LF are fed byte by byte and then finished |
| ShellLine.WordsSnoc | scrolls/msh.m8a:415-421 | One more byte changes the word list as a splitter should |
| ShellLine.DropSnoc | scrolls/msh.m8a:415-421 | Byte 13 vanishes, every other byte stays |
| ShellParse.LineReached | scrolls/msh.m8a:444-610 | After any bytes the buffers track "drop CR, split on spaces" while it fits; afterwards the line is drained with an argument missing |
| ShellParse.ParsesExactly | scrolls/msh.m8a:422-667 | The finished line holds its words as NUL-terminated strings if and only if the command has at most 23 bytes, there are at most eight arguments and each fits with its NUL |
| ShellParse.LimitsAre | scrolls/msh.m8a:770-783 | The limits in numbers: 23 bytes, eight arguments, 512 bytes with a NUL each |
| ShellParse.PathAndStart | scrolls/msh.m8a:422-667 | The path copy equals the command word; an empty line starts no command |
| ShellParse.ExactFillFails | scrolls/msh.m8a:643-651 | In a fresh shell, the command c with one argument of 512 bytes is split correctly but not delivered: its NUL is missing |
| ShellParse.OverlongCommand | scrolls/msh.m8a:505-526 | The 25th byte of a command is lost and the rest is read as arguments |
| Shell.ChainWrite | scrolls/msh.m8a:505-522 | A chase write stays in its buffer and keeps written prefix, link suffix and cursor |
| Shell.Msh.Classify | scrolls/msh.m8a:444-471 | Probing classifies every byte as LF, CR, space or letter |
| Shell.Msh.TakeByte | scrolls/msh.m8a:444-615 | One byte in any loop keeps all four buffers chains and touches nothing else |
| Shell.Msh.Rechain | tools/m8asm.py:278-307 | The initializer restores a fresh chain and touches nothing else |
| Shell.Msh.ReadParse | scrolls/msh.m8a:422-667 | For every byte stream the reader's outcome, position and buffers are the specified ones; buffers stay chains, no store leaves them, the argument chain is ready for the next line |
| Shell.Msh.ReadCommand | scrolls/msh.m8a:422-667 | A line within the limits is in memory as its words: command name, argv slots pointing at the arguments, closing zero |
| Shell.Msh.Dispatch | scrolls/msh.m8a:31-226 | The name cells that spell help, exit, cd, mfsls or mfscat, byte for byte, and end there choose that builtin or alias, and all others an external command |
| Shell.Msh.NamedExactly | scrolls/msh.m8a:31-226 | For a NUL-terminated command, the name cells spell a builtin exactly when the command is its name |
| Shell.Msh.DoExternal | scrolls/msh.m8a:266-302 | The path region gets a NUL exactly for commands of at most 20 bytes, and then reads /bin/NAME.mb |
| Shell.Msh.Launch | scrolls/msh.m8a:225-308 | For any finished line: the choice by the bytes of the name cells, mfsls without arguments, everything else with the parsed ones, external commands of at most 20 bytes at /bin/NAME.mb |
| Shell.Msh.Turn | scrolls/msh.m8a:20-31 | One turn of the main loop on any input: what is read, when a command starts, which builtin, alias or program the bytes of its name choose, and buffers ready for the next turn |
| Shell.Msh.CommandTurn | scrolls/msh.m8a:20-31 | On a line within the caller-checkable limits, each builtin is chosen exactly by its name, byte for byte, everything else is external, and the program finds the line's words |
| MfsImage.PackedDisjoint | tools/mkmfs.py:66-104 | Payloads are 512-aligned, behind the table, in order, and share no byte |
| MfsImage.PlacePayloads | tools/mkmfs.py:74-84 | The payload loop puts each file at the next block boundary; all other payload bytes are zero |
| MfsImage.BuildTable | tools/mkmfs.py:91-97 | Each slot holds name, offset and size of its file; unused slots are zero |
| MfsImage.Build | tools/mkmfs.py:66-104 | The image describes exactly the given files, with the three errors the builder has and their limits; its header reads as MfsImage.HeaderReads says |
| MfsImage.HeaderReads | tools/mkmfs.py:86-88 | Bytes 0 to 8 are MFS8V1 and two NULs; the numbers at 8, 12, 16, 20, 24 and 28, lowest byte first, are 512, the number of files, 512, 2560, the image's length and 128; bytes 32 to 512 are zero |
| MfsImage.EntryReads | tools/mkmfs.py:91-97 | Slot k at byte 512 + 128k is the name and zeros, offset at 96, size at 100, zeros from 104; unused slots are zero |
| MfsImage.ImageReads | tools/mkmfs.py:66-104 | Payloads start at multiples of 512, the first at 2560, each less than 512 bytes behind the one before, and are the files' bytes; all other bytes are zero; nothing follows the last |
| MfsImage.Manifest | tools/mkmfs.py:107-127 | The sixteen manifest slots hold the words of their entries, unused ones the buffer address and zeros |
| MfsImage.ManifestAgrees | tools/mkmfs.py:66-127 | Read back from the image, table offset and size equal the manifest's for used and unused slots, source and end addresses follow from them, and the manifest's range is the file's bytes |
| MfsCat.Cat.CopyArgument | scrolls/bin/mfs.cat.m8a:258-287 | A missing or empty argument is reported; otherwise its first 511 bytes are in the path buffer with a NUL |
| MfsCat.Cat.NameMatches | scrolls/bin/mfs.cat.m8a:311-337 | The comparison loop succeeds exactly when the strings are equal |
| MfsCat.Cat.PrintPayload | scrolls/bin/mfs.cat.m8a:238-250 | The payload loop prints exactly the bytes of the range |
| MfsCat.Cat.Search | scrolls/bin/mfs.cat.m8a:13-250 | The sixteen-slot walk prints the named file or fails |
| MfsCat.Cat.Run | scrolls/bin/mfs.cat.m8a:1-338 | For every argument and image file: usage without an argument, exactly the file's bytes and code 0 if the name exists, code 1 otherwise |
| MfsCat.ArgumentInstalled | src/runtime/m8.c:372-397 | The runtime's argument block is what mfs.cat expects: its first argument if it fits, otherwise none |
| MfsCat.BuildAndLookUp | tools/mkmfs.py:66-127 | Building an image, generating its manifest and running mfs.cat on both prints exactly the named source file, or reports usage or a missing name |
| MfsCat.CutNever | scrolls/bin/mfs.cat.m8a:266-284 | Cutting a long argument neither makes it equal to a file name nor stops it from being one |
| Decimal.CanonicalReadsBack | scrolls/lib/print_fdec.m8a:1-15 | Canonical decimals are digits only, have no leading zero and read back as their value |
| Decimal.LadderedExactly | scrolls/lib/print_fdec.m8a:16-135 | For any K, the ladders recover the value if and only if it has at most K digits and its first remainder fits one transfer |
| Decimal.PrintsExactly | scrolls/lib/print_fdec.m8a:16-135 | The printed text is the canonical decimal under exactly that condition |
| Decimal.CarriesRemainder | scrolls/lib/print_fdec.m8a:115-135 | A position's digit is the quotient, and the carried file's size exactly the remainder |
| Decimal.FourPositions | scrolls/lib/print_fdec.m8a:326-431 | At the shipped four positions every value below 10000 is right |
| Decimal.FivePositionsClip | scrolls/lib/print_fdec.m8a:115-135 | At five positions 9000 would come out as 8192 |
| Decimal.Printer.Ladder | scrolls/lib/print_fdec.m8a:30-67 | Nine rungs of read(p - 1) and read(1) find the digit |
| Decimal.Printer.Carry | scrolls/lib/print_fdec.m8a:115-135 | The other file gets what one transfer delivers behind the consumed bytes |
| Decimal.Printer.Print | scrolls/lib/print_fdec.m8a:16-1009 | The routine prints the laddered number canonically ("0" for zero), and no read delivers more bytes than the value, hence at most 8192 for the contract's values |

## Left out

- Host calls: their bodies (`src/runtime/m8.c:420-593`) are an arbitrary script of return values and memory writes; reading guest strings and vectors is modelled only where a scroll program needs it.
- The `--classic` mode, trace output and command lines.
- Lexing, comments, include splicing and expression syntax of the assembler: source starts as items with expression trees of numbers, labels, sums, differences and negation.
- That a spelling exists for every word and address: the search is proved sound and complete instead.
- The descriptive strings of search steps, report printing and the toy search graph of the planner.
- `m8audit.py`, the loader tests, `m8glyphs.py`, the packaging scripts and the scrolls that are plain sequences of host calls.
- `mfs.ls`, `mfs.stat` and `mfs.info`, which repeat the shape of `mfs.cat`; walking a directory to collect files (the builder starts from the collected list; the path check for `..` is not modelled).
- Messages of `msh`, and the fork, exec and wait around an external command; the model ends with the argument vector and path that execve receives.
- The unrolled code of the dispatch chain, the slot search and digit ladders is written as loops over the same tests.
- Short writes and failing host calls in `print_fdec`.
