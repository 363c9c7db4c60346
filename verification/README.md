# Models and proofs for the algorithmic cores of the repository

This Dafny project models eleven pieces of the repository that are real algorithms or machines with state, and proves what they are
for. Code that the repository writes as functions is modelled by functions; code that works on arrays, records and linked nodes by
methods on arrays, fields and linked nodes, with the source's loops and branches.

| core | modules |
|---|---|
| RV64 pipeline | `PipelineTypes`, `SequentialMachine`, `PipelineStep`, `PipelineProof`, `PipelineFacts`, `Rv64Datapath`, `Rv64Facts`, `Rv64Instructions`, `Rv64Machine`, `TopCpu` |
| skew suffix array | `RadixPass`, `SuffixOrder`, `SuffixNames`, `SuffixMerge`, `SuffixSortable`, `SuffixArray` |
| Dinic maximum flow | `FlowNetwork`, `Dinic` |
| x86 page tables | `PageTables`, `Vme`, `VmeAreas` |
| Brainf\*\*k compiler and interpreter | `BfLanguage`, `BfCompiler`, `BfMeaning` |
| 64-bit division by halves | `BitOperations`, `CountZeros`, `LongDivision`, `SignedDivision` |
| queens by bit masks | `BitMasks`, `Queens` |
| CoreMark list mergesort | `ListOrder`, `MergeSort` |
| updatable heap of the 15-puzzle | `HeapOrder`, `UpdatableHeap` |
| sliding puzzle | `Inversions`, `Puzzle`, `PuzzleCells`, `PuzzleDistances`, `PuzzleLoops` |
| matrix powers | `MatrixPower` |
| shared | `Arithmetic`, `Iteration`, `Pigeonhole` |

`dafny verify dfyconfig.toml` checks everything.

## How the models are set up

- Pipeline. The sequential machine and the pipeline are built from the same decode, execute and memory functions, bundled in a
  `Datapath` of function values, so the main theorem is about hazards and holds for any datapath of this kind; `Rv64Datapath` is the
  repository's. What one instruction does is stated apart from these functions, in numbers: for any datapath in `PipelineFacts`, and
  for the instruction words of the repository in `Rv64Instructions` and `Rv64Machine`. All state before reset is arbitrary. Instruction memory is fixed and apart from data memory; F is a registered lookup
  that holds on a stall and is zero on a bubble.
- Page tables. Memory maps page addresses to tables; `pgalloc` takes from a list of pages not in memory, and `pgfree` removes a page
  from memory, so that a use after free would not verify. A panic is an outcome other than `Done`. Kernel tables may hold large pages.
- Brainf\*\*k. The structured semantics repeats a loop body and tests again; one step of it is one round of the interpreter. Input is
  a function from positions, and plain `char` may be signed or not.
- Division. Words are numbers below 2^32 and 2^64; shifts, masks and complements are defined bit by bit, and every shift count is
  shown to be below 32. `requires` excludes only the divisor 0, for which the source divides by zero itself.
- Mergesort. A comparison function is an order with what it does to the items it looks at; it is consistent when the order is total
  and transitive and a second look changes nothing. Ghost index sequences name the original nodes; links are the real ones.
- Heap. Hash, lower bound and element equality are parameters. `Weights()` is what the queue holds: a map from elements to weights.
- Puzzle. A board is stored row by row as in memory. `int8_t` cells and distances and `uint8_t` coordinates wrap explicitly, for
  boards of every size; the tiles that a board stands for are a sequence beside it (`Shows`).

## What the code does that its comments do not say

- `core_list_mergesort` allows for an empty list in a comment but writes through the null tail, so the model asks for a node.
- `heap.h` asserts `heap_size <= M` before it adds an element, but slots are numbered from 1 in an array of M, so M - 1 elements
  fit; `Push` asks for room by that count, and `FillUp` leads to the push that has none.
- `puzzle.h` is a template for every size, but its bytes are not. Up to 5 by 5 the stored distance is right. Up to 11 by 11 it is
  right modulo 256, hence a lower bound after any moves. From 12 on cells turn negative: the distance of a new puzzle is still a
  lower bound, but after moves it need not be one. At 13 and 15 `solvable` says the opposite. From 17 on, different tiles have equal
  cells: 256 looks like the blank, moves change what `solvable` says, and other boards look like the solution. From 257 on the
  blank's place does not fit its bytes.
- `length` of the heap reports the path length of the first push of an element; a later, shorter push lowers the weight and leaves
  the length as it was. `LengthIsOfFirstPush` says when the two belong together.
- `decode.v` compares all seven bits of func7 for SRLI and SRAI, so that amounts from 32 on are no operation.
- `suffixArray` asks for letters from 1, and the benchmark calls it with letters from 0. `Sortable` says on which of these texts it
  still sorts.
- A popped step keeps slot number 1, so pushing its element again lowers a weight in the record but moves nothing.
- `compile_bf` leaves bracket positions on its stack when it fails; a later compilation without `SP = 0` would start from there,
  so the model asks for an empty stack, as the prepare routine leaves it.
- `Maxflow` with s equal to t would not end, as every search reaches t; the model asks for different vertices.
- With W-suffixed division the test for a zero divisor looks at all 64 bits; the low word may still be zero, which Verilog leaves
  undefined and the model takes as 0. The REM group falls through to 0. The model follows both.

## Model

| member | source | states |
|---|---|---|
| `SuffixArray.Sort` | software-test/benchmarks/microbench/src/ssort/ssort.cc:25-85 | the whole skew algorithm, recursion included, for every n >= 2 and every text of letters 0..K followed by three zeros: `SA` holds the suffix array of the text (each position once, suffixes strictly increasing) exactly if the text is `Sortable`, as every text of letters 1..K is |
| `SuffixSortable.SortedExactly` | software-test/benchmarks/microbench/src/ssort/ssort.cc:65-84 | the merge of what the names give is the suffix array exactly if no triple equal to that of the last mod 1 position stands before it with something smaller behind than suffix 2, and, where n % 3 == 0, no mod 0 position has the last letter, a zero and then something smaller than suffix 2 |
| `SuffixSortable.PositiveIsSortable` | software-test/benchmarks/microbench/src/ssort/ssort.cc:25-27 | texts of letters from 1 on are sortable |
| `SuffixSortable.ZerosMisleadMerge` | software-test/benchmarks/microbench/src/ssort/ssort.cc:65-84 | in 0 0 1 0 0 0 the names are in order, and the merge goes wrong all the same |
| `SuffixOrder.LessIsDictionaryLess` | software-test/benchmarks/microbench/src/ssort/ssort.cc:25-27 | the order used on positions is the dictionary order of the suffixes themselves |
| `SuffixOrder.SuffixArrayUnique` | software-test/benchmarks/microbench/src/ssort/ssort.cc:25-27 | a text has only one suffix array, so the contract of `Sort` fixes its result |
| `SuffixOrder.LessByTriples` | software-test/benchmarks/microbench/src/ssort/ssort.cc:43-51 | two suffixes compare as their zero-padded triples do; equal full triples leave it to the suffixes three further on, and of equal triples one of which runs past the end the later one is smaller |
| `RadixPass.Pass` | software-test/benchmarks/microbench/src/ssort/ssort.cc:13-23 | one counting pass lists the entries in the stable order of their keys, and writes nothing past the n-th slot |
| `RadixPass.Distribute` | software-test/benchmarks/microbench/src/ssort/ssort.cc:22 | with exclusive prefix sums in `c`, every entry goes to the slot that counts the keys before it |
| `RadixPass.StableOrderIsSlot` | software-test/benchmarks/microbench/src/ssort/ssort.cc:19-22 | any stable order is the one of the counted slots: stability determines the permutation |
| `SuffixArray.FillPositions` | software-test/benchmarks/microbench/src/ssort/ssort.cc:36 | the positions not divisible by three in order, with the dummy one when n % 3 == 1 |
| `SuffixNames.ThreePasses` | software-test/benchmarks/microbench/src/ssort/ssort.cc:38-41 | three stable passes from the last letter to the first sort positions by triples |
| `SuffixArray.SortTriples` | software-test/benchmarks/microbench/src/ssort/ssort.cc:38-41 | the three passes on the two arrays leave all mod 1 and mod 2 positions sorted by triples |
| `SuffixArray.AssignNames` | software-test/benchmarks/microbench/src/ssort/ssort.cc:43-51 | names compare exactly as triples do, lie in 1..name, and are all different when `name` reaches n02 |
| `SuffixArray.NamesCompare` | software-test/benchmarks/microbench/src/ssort/ssort.cc:44-48 | along the sorted triples the counter gives equal names to equal triples and smaller names to smaller ones |
| `SuffixNames.NamesReflectOrder` | software-test/benchmarks/microbench/src/ssort/ssort.cc:53-59 | the suffixes of the name string are ordered as the mod 1 and mod 2 suffixes of the text, across the seam of its two halves, if the names are in order |
| `SuffixNames.NamesReflectExactly` | software-test/benchmarks/microbench/src/ssort/ssort.cc:53-59 | they all are exactly if no position before the seam has the padded triple of the seam without a suffix greater than suffix 2 behind it |
| `SuffixNames.ZerosMislead` | software-test/benchmarks/microbench/src/ssort/ssort.cc:25-27 | in 1 1 5 1 2 0 0 2 they are not: the names put suffix 4 before suffix 7 |
| `SuffixArray.OrderNames` | software-test/benchmarks/microbench/src/ssort/ssort.cc:53-59 | by recursion or by inverting unique names, `SA12` orders the name string and `s12` holds the ranks, from 1 |
| `SuffixArray.StoreRanks` | software-test/benchmarks/microbench/src/ssort/ssort.cc:57 | `s12` becomes the inverse of `SA12`, counted from 1 |
| `SuffixArray.InvertNames` | software-test/benchmarks/microbench/src/ssort/ssort.cc:59 | unique names inverted: `SA12` becomes the order that they are the ranks of |
| `SuffixArray.RankMod12` | software-test/benchmarks/microbench/src/ssort/ssort.cc:36-59 | names that compare as the triples do, the order of their suffixes in `SA12`, and its inverse in `s12` |
| `SuffixSortable.RankedExactly` | software-test/benchmarks/microbench/src/ssort/ssort.cc:53-59 | this is the order of the mod 1 and mod 2 suffixes of the text exactly if the names are in order |
| `SuffixArray.CollectMod0` | software-test/benchmarks/microbench/src/ssort/ssort.cc:62 | the mod 0 positions in the order of the mod 1 suffixes behind them |
| `SuffixSortable.Mod0Sorted` | software-test/benchmarks/microbench/src/ssort/ssort.cc:61-63 | sorting these stably by their first letter orders the mod 0 suffixes |
| `SuffixArray.SortMod0` | software-test/benchmarks/microbench/src/ssort/ssort.cc:61-63 | `SA0` holds every mod 0 position, in the order of the suffixes where the ranks are right |
| `SuffixSortable.DummyFirst` | software-test/benchmarks/microbench/src/ssort/ssort.cc:66 | with right ranks the entries before n0 - n1 are the dummy suffix and those from it on are real ones, so the merge skips the dummy and nothing else |
| `SuffixNames.MergeMod1` | software-test/benchmarks/microbench/src/ssort/ssort.cc:71 | the pair comparison of a mod 1 with a mod 0 suffix is their order |
| `SuffixNames.MergeMod2` | software-test/benchmarks/microbench/src/ssort/ssort.cc:72 | the triple comparison of a mod 2 with a mod 0 suffix is their order, except that behind the end of a text of length 3k it compares suffix 2 |
| `SuffixArray.EntryFirstIsFirst` | software-test/benchmarks/microbench/src/ssort/ssort.cc:67-72 | the test of the merge, on the arrays it reads, is the test of the merge function |
| `SuffixSortable.FirstIsLess` | software-test/benchmarks/microbench/src/ssort/ssort.cc:67-72 | with right ranks it decides the order of the two suffixes, except at the end of such a text |
| `SuffixArray.MergeStep` | software-test/benchmarks/microbench/src/ssort/ssort.cc:66-84 | one round puts the head that the test takes first next |
| `SuffixMerge.MergedAscends` | software-test/benchmarks/microbench/src/ssort/ssort.cc:65-84 | sorted inputs and right decisions give a sorted result |
| `SuffixMerge.InputsAscend` | software-test/benchmarks/microbench/src/ssort/ssort.cc:65-84 | a sorted result has sorted inputs |
| `SuffixMerge.MisjudgedShows` | software-test/benchmarks/microbench/src/ssort/ssort.cc:65-84 | where the test is wrong for a position and all those between, the result is not sorted |
| `SuffixArray.Merge` | software-test/benchmarks/microbench/src/ssort/ssort.cc:65-84 | the loop, with both ways to drain, writes the merge of the two inputs |
| `PipelineProof.PipelineRefinesSequential` | IP/rv64/cache-cpu/top_cpu.v:15-315 | from any power-on state, for every program, datapath and number of clocks after reset: the commits are those of the one-instruction-at-a-time machine in order, registers and data memory are as it leaves them, and at least every fifth clock commits; what that machine does is `PipelineFacts.OneInstruction` |
| `TopCpu.Rv64PipelineRefinesSequential` | IP/rv64/cache-cpu/top_cpu.v:15-315 | the same for the decode, execute and memory functions of the repository, whose instructions `Rv64Machine` and `Rv64Instructions` give in numbers |
| `PipelineProof.CommitsAreChained` | IP/rv64/cache-cpu/execute.v:153-167 | what the pipeline commits from reset on, for any number of clocks: the first commit_pc is the reset address and each commit_pre_pc is the next commit_pc |
| `PipelineFacts.OneInstruction` | IP/rv64/cache-cpu/write_back.v:14-23 | one instruction of that machine in numbers: pc goes to the target of a jump and to pc + 4 modulo 2^64 otherwise, jumps leave pc + 4 in rd, loads the loaded word, everything else that writes the ALU result, x0 reads as zero, and no other register changes |
| `PipelineFacts.CommitsFollowJumps` | IP/rv64/cache-cpu/pc.v:12-26 | what the pipeline commits from reset on: first the word at 0x80000000, always the word that instruction memory has at commit_pc, and next the target of a jump or pc + 4 |
| `PipelineFacts.StraightLine` | IP/rv64/cache-cpu/pc.v:22-24 | while nothing jumps the i-th commit is the word at 0x80000000 + 4 * i |
| `PipelineProof.ForwardCorrect` | IP/rv64/cache-cpu/decode.v:281-302 | whatever instruction is in D on the path of the program, its operands are the architectural ones at that instruction, unless a load in E holds it up |
| `PipelineProof.StepKeepsInv` | IP/rv64/cache-cpu/regE.v:44-75 | one clock keeps the invariant of all stages, with nothing but bubbles behind a jump in M |
| `PipelineProof.ResetEstablishesInv` | IP/rv64/cache-cpu/top_cpu.v:15-41 | one clock with reset, from any state, establishes that invariant |
| `PipelineProof.OldestMovesOn` | IP/rv64/cache-cpu/ctrl.v:26-43 | neither stalls nor flushes ever hold up the oldest instruction in flight |
| `PipelineProof.ENeedsJump` | IP/rv64/cache-cpu/execute.v:153-164 | E asks for a jump exactly when its instruction jumps, and to where the program goes on |
| `PipelineProof.RunKeepsInv` | IP/rv64/cache-cpu/top_cpu.v:15-315 | the invariant and the chain of commits hold after any number of clocks |
| `TopCpu.Cpu.Operand` | IP/rv64/cache-cpu/decode.v:290-302 | the operand multiplexer, on the clocked registers |
| `TopCpu.Cpu.Posedge` | IP/rv64/cache-cpu/top_cpu.v:15-307 | a rising edge of the whole machine is one step of the state that the proof speaks about |
| `TopCpu.Cpu.RunFromReset` | IP/rv64/cache-cpu/top_cpu.v:311-315 | running the clocked machine shows the retired instructions at the commit outputs |
| `Rv64Datapath.Rv64Ok` | IP/rv64/cache-cpu/decode.v:257-261 | the repository's decoder meets what the hazard proof asks of a datapath: the all-zero word does nothing, and what writes a register is what the selects know |
| `Rv64Facts.ImmIRoundTrip` | IP/rv64/cache-cpu/decode.v:236 | an I-type immediate put into an instruction word is decoded again (RISC-V Unprivileged ISA 20191213, section 2.3) |
| `Rv64Facts.ImmSRoundTrip` | IP/rv64/cache-cpu/decode.v:237 | the same for S-type |
| `Rv64Facts.ImmBRoundTrip` | IP/rv64/cache-cpu/decode.v:238 | the same for B-type |
| `Rv64Facts.ImmJRoundTrip` | IP/rv64/cache-cpu/decode.v:239 | the same for J-type |
| `Rv64Facts.ImmURoundTrip` | IP/rv64/cache-cpu/decode.v:240 | the same for U-type |
| `Rv64Facts.ShiftRightImmediate` | IP/rv64/cache-cpu/decode.v:126-127 | SRLI and SRAI by 32 to 63 decode to no ALU operation and give 0; the result is that of section 5.2 of the same manual exactly for amounts below 32, or where that is 0 |
| `Rv64Facts.ShiftRightWordImmediate` | IP/rv64/cache-cpu/decode.v:134-135 | SRLIW and SRAIW give the manual's result for each of their amounts |
| `Rv64Facts.ShiftLeftImmediate` | IP/rv64/cache-cpu/decode.v:122 | SLLI does for every amount from 0 to 63 |
| `Rv64Facts.LoadAfterStore` | IP/rv64/cache-cpu/memory.v:31-62 | a load after a store of its width to the same address gives the value stored, extended as the load says, exactly if the address is not 0, where the read port returns 0, or that value is 0 |
| `Rv64Facts.StoreElsewhere` | IP/rv64/cache-cpu/memory.v:48-62 | a store leaves every load from addresses apart from it as it was |
| `Rv64Facts.StoredBytes` | IP/rv64/cache-cpu/memory.v:48-62 | SB, SH, SW and SD write the low one, two, four or eight bytes of the register, lowest first, and no other address |
| `Rv64Facts.LoadedBytes` | IP/rv64/cache-cpu/memory.v:40-46 | LBU, LHU, LWU and LD give the number that the low one, two, four or eight bytes at the address spell, lowest first, and 0 at address 0 |
| `Rv64Facts.LoadedSigned` | IP/rv64/cache-cpu/memory.v:40-42 | LB, LH and LW give the same with all ones above where its top bit is set |
| `Rv64Instructions.AddSub` | IP/rv64/cache-cpu/execute.v:103-104 | ADD and SUB, as encoded words: sum and difference modulo 2^64 |
| `Rv64Instructions.SetLess` | IP/rv64/cache-cpu/execute.v:127-128 | SLT compares signed numbers, SLTU unsigned ones |
| `Rv64Instructions.Bitwise` | IP/rv64/cache-cpu/execute.v:120-130 | AND, OR and XOR, bit by bit |
| `Rv64Instructions.Shifts` | IP/rv64/cache-cpu/execute.v:105-133 | SLL, SRL and SRA by the low six bits: times a power of two modulo 2^64, and the quotients of the unsigned and the signed number, rounded down |
| `Rv64Instructions.Products` | IP/rv64/cache-cpu/execute.v:135-138 | MUL and MULHU: the low and the high word of the product |
| `Rv64Instructions.SignedProducts` | IP/rv64/cache-cpu/execute.v:136-137 | MULH and MULHSU: the high word of the product of two signed numbers, or of a signed and an unsigned one |
| `Rv64Instructions.Division` | IP/rv64/cache-cpu/execute.v:140-141 | DIV: the quotient toward zero, modulo 2^64, and all ones for the divisor 0 |
| `Rv64Instructions.UnsignedDivision` | IP/rv64/cache-cpu/execute.v:142 | DIVU |
| `Rv64Instructions.NoResult` | IP/rv64/cache-cpu/decode.v:87-113 | every other func7 and func3 of this opcode, REM and REMU among them, gives 0 |
| `Rv64Instructions.AddSubWord` | IP/rv64/cache-cpu/execute.v:122-124 | ADDW and SUBW: the 32-bit number equal to sum or difference modulo 2^32, sign-extended |
| `Rv64Instructions.ProductWord` | IP/rv64/cache-cpu/execute.v:139 | MULW |
| `Rv64Instructions.ShiftsWord` | IP/rv64/cache-cpu/execute.v:126-134 | SLLW, SRLW and SRAW on the low words, by the low five bits |
| `Rv64Instructions.DivisionOfLow` | IP/rv64/cache-cpu/execute.v:143-144 | DIVW on the signed low words; all ones only where all 64 bits of the divisor are 0 |
| `Rv64Instructions.UnsignedDivisionOfLow` | IP/rv64/cache-cpu/execute.v:145 | DIVUW |
| `Rv64Instructions.NoResultWord` | IP/rv64/cache-cpu/decode.v:98-118 | every other word of this opcode gives 0 |
| `Rv64Instructions.AddImmediate` | IP/rv64/cache-cpu/decode.v:121 | ADDI, as encoded word: the sum with the sign-extended immediate modulo 2^64 |
| `Rv64Instructions.SetLessImmediate` | IP/rv64/cache-cpu/decode.v:123-124 | SLTI and SLTIU, with the same extension for both |
| `Rv64Instructions.BitwiseImmediate` | IP/rv64/cache-cpu/decode.v:125-129 | ANDI, ORI and XORI, bit by bit |
| `Rv64Instructions.AddImmediateWord` | IP/rv64/cache-cpu/decode.v:132 | ADDIW |
| `Rv64Instructions.ShiftLeftWordImmediate` | IP/rv64/cache-cpu/decode.v:133 | SLLIW |
| `Rv64Machine.RegisterWord` | IP/rv64/cache-cpu/write_back.v:19-23 | an instruction of the four ALU opcodes writes that result to rd and goes on at pc + 4 |
| `Rv64Machine.LoadUpperWord` | IP/rv64/cache-cpu/execute.v:113 | LUI writes the immediate |
| `Rv64Machine.AddUpperWord` | IP/rv64/cache-cpu/execute.v:114 | AUIPC writes pc plus the immediate |
| `Rv64Machine.JumpWord` | IP/rv64/cache-cpu/execute.v:159-164 | JAL goes to pc plus the immediate and leaves pc + 4 in rd |
| `Rv64Machine.JumpRegisterWord` | IP/rv64/cache-cpu/execute.v:161-164 | JALR goes to the even address at or below rs1 plus the immediate, with rs1 read before rd is written |
| `Rv64Machine.BranchWord` | IP/rv64/cache-cpu/execute.v:147-164 | BEQ, BNE, BLT, BGE, BLTU and BGEU go to pc plus the immediate exactly where the signed or unsigned comparison holds, and to pc + 4 otherwise; they write nothing |
| `Rv64Machine.LoadWord` | IP/rv64/cache-cpu/memory.v:31-46 | each load, at rs1 plus the immediate, by func3 |
| `Rv64Machine.StoreWord` | IP/rv64/cache-cpu/memory.v:48-62 | each store, by func3 |
| `Rv64Machine.OtherWord` | IP/rv64/cache-cpu/decode.v:71-84 | any other opcode only goes on |
| `Dinic.Network.constructor` | software-test/benchmarks/microbench/src/dinic/dinic.cc:28-45 | an empty network of n vertices with the buffer sizes of the benchmark |
| `Dinic.Network.AddEdge` | software-test/benchmarks/microbench/src/dinic/dinic.cc:47-55 | adds the arc and its twin of capacity 0 to the chains of both ends; nothing for capacity 0 |
| `Dinic.Network.BFS` | software-test/benchmarks/microbench/src/dinic/dinic.cc:57-75 | marks a side that no residual arc leaves, and when it holds t, levels along which t is reachable; the flow stays |
| `Dinic.Network.DFS` | software-test/benchmarks/microbench/src/dinic/dinic.cc:77-91 | pushes at most a, keeps capacities and antisymmetry, changes the excess of x and t only and by the result, nothing below the level of x, and pushes something whenever t can be reached by levels from x |
| `Dinic.Network.Scan` | software-test/benchmarks/microbench/src/dinic/dinic.cc:79-90 | the same for the loop over the arcs of x |
| `Dinic.Network.TryArc` | software-test/benchmarks/microbench/src/dinic/dinic.cc:81-88 | one arc of that loop; with nothing pushed so far no earlier arc led to t |
| `Dinic.Network.PushEdge` | software-test/benchmarks/microbench/src/dinic/dinic.cc:83-84 | flow on an arc and its twin, the network invariant kept |
| `Dinic.Network.Augment` | software-test/benchmarks/microbench/src/dinic/dinic.cc:97-99 | a phase after a search that reached t adds a positive flow of at most INF |
| `Dinic.Network.Maxflow` | software-test/benchmarks/microbench/src/dinic/dinic.cc:93-102 | ends with a feasible flow whose value is the capacity of the cut given by the last search, and no feasible flow is larger; the result is what was added |
| `Dinic.Network.SideIsMinimumCut` | software-test/benchmarks/microbench/src/dinic/dinic.cc:57-75 | a search that misses t certifies the flow: the visited side is a cut of the same value |
| `FlowNetwork.FlowAtMostCut` | software-test/benchmarks/microbench/src/dinic/dinic.cc:57-75 | every feasible flow is its net flow over any cut, hence at most the capacity of any cut |
| `FlowNetwork.SaturatedCutIsMaximum` | software-test/benchmarks/microbench/src/dinic/dinic.cc:57-75 | a cut without residual arcs has the value of the flow, which is therefore maximum |
| `FlowNetwork.SearchDone` | software-test/benchmarks/microbench/src/dinic/dinic.cc:63-73 | an emptied queue leaves no unscanned vertex: the visited side is closed and every vertex in it reached by levels |
| `FlowNetwork.PushedThrough` | software-test/benchmarks/microbench/src/dinic/dinic.cc:82-84 | flow pushed from the head of an arc, then over the arc, is flow pushed from its tail |
| `FlowNetwork.PushedTwice` | software-test/benchmarks/microbench/src/dinic/dinic.cc:81-89 | the flows pushed over the arcs of a vertex add up |
| `FlowNetwork.PushExcess` | software-test/benchmarks/microbench/src/dinic/dinic.cc:83-84 | a push over one arc moves excess between its ends and nowhere else |
| `FlowNetwork.ZeroFlow` | software-test/benchmarks/microbench/src/dinic/dinic.cc:49-52 | without flow no vertex has excess, so a network as built is feasible |
| `PageTables.X86_64Good` | abstract-machine/am/src/x86/qemu/vme.c:5-13 | the four-level configuration meets the conditions of the proofs (Intel SDM vol. 3A, section 4.5) |
| `PageTables.X86_32Good` | abstract-machine/am/src/x86/qemu/vme.c:15-20 | so does the two-level one (section 4.3) |
| `VmeAreas.Slots64` | abstract-machine/am/src/x86/qemu/vme.c:7-13 | the four levels take nine bits each of an address, from bits 39, 30, 21 and 12 |
| `VmeAreas.Slots32` | abstract-machine/am/src/x86/qemu/vme.c:16-20 | the two levels take ten bits each, from bits 22 and 12 |
| `VmeAreas.KernelArea64` | abstract-machine/am/src/x86/qemu/vme.c:27 | of the 48-bit addresses exactly those below 512 GiB use kernel slots of the root |
| `VmeAreas.KernelArea32` | abstract-machine/am/src/x86/qemu/vme.c:30-31 | of the 32-bit ones exactly the first GiB and those from 0xfd000000 on |
| `VmeAreas.WalkLevel` | abstract-machine/am/src/x86/qemu/vme.c:57-75 | one level of the hardware walk in numbers: what each bit of an entry means |
| `Vme.AddressSpace.PtWalk` | abstract-machine/am/src/x86/qemu/vme.c:57-75 | the loop of ptwalk does what the recursive walk with allocation says, on memory and page pool |
| `PageTables.WalkAllocTakes` | abstract-machine/am/src/x86/qemu/vme.c:66-68 | the walk takes one free page for each missing table on the path, and fails exactly when there are fewer, having used them up |
| `PageTables.WalkPresent` | abstract-machine/am/src/x86/qemu/vme.c:155 | a walk along a present path changes nothing and ends at the same table |
| `PageTables.WalkAllocGrown` | abstract-machine/am/src/x86/qemu/vme.c:57-75 | the walk leads to the last-level table of the address, adds to the tree exactly the pages it took, and keeps its shape |
| `PageTables.WalkAllocKeeps` | abstract-machine/am/src/x86/qemu/vme.c:66-71 | allocating tables on the way changes no translation |
| `PageTables.SetEntryWalk` | abstract-machine/am/src/x86/qemu/vme.c:146-153 | writing the entry of an address changes the translation of its page to the new entry, and of no other |
| `PageTables.LeafOfPath` | abstract-machine/am/src/x86/qemu/vme.c:146-153 | the entry that ptwalk finds is what a hardware walk ends at |
| `PageTables.SlotsDeterminePage` | abstract-machine/am/src/x86/qemu/vme.c:49-51 | two addresses have the same indexes at every level exactly when they lie in the same page |
| `Vme.AddressSpace.Map` | abstract-machine/am/src/x86/qemu/vme.c:141-156 | each panic and the success occur exactly under their conditions, that pages run out by the number of missing tables, at most one a level; on success the page translates to pa with the rights of prot, or faults, and every other page and every kernel page as before; a panic changes no translation |
| `VmeAreas.Map64` | abstract-machine/am/src/x86/qemu/vme.c:141-156 | on x86_64: the outcome for every address, with the user's 512 GiB from 0x100000000000 on; after `Done` the 4096 bytes at va translate to pa or fault, and every other address below 2^48 is as before |
| `VmeAreas.Map32` | abstract-machine/am/src/x86/qemu/vme.c:141-156 | on i386: the same for the GiB from 0x40000000 on and addresses below 2^32 |
| `Vme.AddressSpace.SetMapping` | abstract-machine/am/src/x86/qemu/vme.c:147-155 | the checks and the write behind ptwalk |
| `Vme.AddressSpace.MappedEntryMeans` | abstract-machine/am/src/x86/qemu/vme.c:152 | the entry written is present, for users, and writable as asked |
| `Vme.AddressSpace.Protect` | abstract-machine/am/src/x86/qemu/vme.c:117-135 | a new address space translates kernel addresses as the kernel's own table does and faults everywhere else |
| `VmeAreas.Protect64` | abstract-machine/am/src/x86/qemu/vme.c:117-135 | on x86_64: below 512 GiB addresses translate as in the kernel's table, and from there up to 2^48 they fault |
| `VmeAreas.Protect32` | abstract-machine/am/src/x86/qemu/vme.c:117-135 | on i386: so they do in the first GiB and from 0xfd000000 on, and fault in between |
| `Vme.AddressSpace.CopyRange` | abstract-machine/am/src/x86/qemu/vme.c:124-129 | copies one range of kernel slots and no other slot |
| `Vme.AddressSpace.Teardown` | abstract-machine/am/src/x86/qemu/vme.c:77-87 | frees the tables of a tree in post order and nothing else; no table is read after it is freed |
| `Vme.AddressSpace.Unprotect` | abstract-machine/am/src/x86/qemu/vme.c:137-139 | frees each table of the address space once, every table before the one that points to it, and leaves the kernel's tables in place |
| `Vme.AddressSpace.Close` | abstract-machine/am/src/x86/qemu/vme.c:137-139 | these are the pages taken since protect |
| `Vme.AddressSpace.Session` | abstract-machine/am/src/x86/qemu/vme.c:117-156 | over protect, any sequence of maps, and unprotect: outcome, memory and free pages are those of the calls one after the other; the pages freed are exactly the pages allocated, each once, in an order in which every table goes before its parent in the tree that memory held before unprotect |
| `PageTables.ChildrenFirst` | abstract-machine/am/src/x86/qemu/vme.c:79-86 | in post order every table of the tree, at any level, comes after each of its children |
| `PageTables.PostOrderChildrenFirst` | abstract-machine/am/src/x86/qemu/vme.c:79-86 | so for all tables of the tree at once |
| `PageTables.PostOrderDistinct` | abstract-machine/am/src/x86/qemu/vme.c:77-87 | post order lists no table twice |
| `PageTables.PostOrderIsFootprint` | abstract-machine/am/src/x86/qemu/vme.c:77-87 | post order lists the tables of the tree and no other page |
| `BfCompiler.Interpreter.Compile` | software-test/benchmarks/microbench/src/bf/bf.c:65-102 | succeeds exactly on texts with under 4096 commands, balanced brackets and at most 512 nested loops, and leaves code of the loop structure of the text |
| `BfCompiler.Interpreter.CompileAll` | software-test/benchmarks/microbench/src/bf/bf.c:67-96 | the loop over the text, with its early exits |
| `BfCompiler.Interpreter.CompileChar` | software-test/benchmarks/microbench/src/bf/bf.c:68-95 | one round of the switch, comments and the wrapping of pc included; it fails only where depth leaves 0..512 |
| `BfCompiler.Interpreter.OpenLoop` | software-test/benchmarks/microbench/src/bf/bf.c:77-83 | an open bracket: pushed, or refused on a full stack |
| `BfCompiler.Interpreter.CloseLoop` | software-test/benchmarks/microbench/src/bf/bf.c:84-92 | a close bracket: both jumps resolved, or refused on an empty stack |
| `BfCompiler.TextDeterminesItems` | software-test/benchmarks/microbench/src/bf/bf.c:28-30 | a program text has one loop structure only |
| `BfMeaning.CommandsAre` | software-test/benchmarks/microbench/src/bf/bf.c:71-93 | eight characters are commands, all others comments |
| `BfMeaning.AcceptableBy` | software-test/benchmarks/microbench/src/bf/bf.c:97-99 | fewer than 4096 commands of a program nested at most 512 deep are acceptable |
| `BfMeaning.AcceptableIs` | software-test/benchmarks/microbench/src/bf/bf.c:97-99 | and nothing else is |
| `BfCompiler.DepthOfText` | software-test/benchmarks/microbench/src/bf/bf.c:77-92 | in a structured text every prefix has a depth between 0 and the nesting, and brackets balance |
| `BfCompiler.AcceptableDepth` | software-test/benchmarks/microbench/src/bf/bf.c:97-99 | so any text outside these depths is none that the compiler should accept |
| `BfLanguage.StepsTogether` | software-test/benchmarks/microbench/src/bf/bf.c:108-124 | one round of the interpreter and one step of the structured program keep equal stores and halt together |
| `BfLanguage.SameRun` | software-test/benchmarks/microbench/src/bf/bf.c:108-124 | for any number of steps, on code that compiles the program |
| `BfCompiler.Interpreter.ExecuteStep` | software-test/benchmarks/microbench/src/bf/bf.c:110-123 | one round of the interpreter on its arrays is one step of the machine |
| `BfCompiler.Interpreter.Execute` | software-test/benchmarks/microbench/src/bf/bf.c:108-124 | after every number of rounds the tape, the pointer, input and output are as the structured program leaves them; the loop ends exactly when it halts |
| `BfCompiler.Interpreter.Interpret` | software-test/benchmarks/microbench/src/bf/bf.c:143-146 | compiling a text and executing it leaves what the text's own steps do |
| `BfMeaning.PlainMeans` | software-test/benchmarks/microbench/src/bf/bf.c:112-117 | each of the six plain characters of a text, wherever a run has come to it: what it adds to the cell modulo 65536, where the pointer goes, what is put out, and which number a byte of the input becomes with signed and with unsigned char; all else stays, and the text behind it is next |
| `BfMeaning.LoopMeans` | software-test/benchmarks/microbench/src/bf/bf.c:118-119 | a loop at a zero cell is passed over; at any other its body is done and then the loop again |
| `BfMeaning.HaltedMeans` | software-test/benchmarks/microbench/src/bf/bf.c:110 | a run ends at the end of the text and where the pointer has left the 4096 cells, as `>` from the last and `<` from the first do |
| `BfMeaning.StraightText` | software-test/benchmarks/microbench/src/bf/bf.c:110-123 | text without loops is done from left to right, a command a step |
| `BfMeaning.OneCommand` | software-test/benchmarks/microbench/src/bf/bf.c:143-146 | a program of one character, compiled and executed: every cell, pointer, output and input in numbers |
| `BfMeaning.ClearLoop` | software-test/benchmarks/microbench/src/bf/bf.c:114-119 | `[-]` leaves 0 in a cell of c after 2 * c + 1 steps, and nothing else changed |
| `BfMeaning.MoveLoop` | software-test/benchmarks/microbench/src/bf/bf.c:112-119 | `[->+<]` adds the cell to the next one modulo 65536 and leaves 0, after 5 * c + 1 steps |
| `LongDivision.UDivMod4` | abstract-machine/klib/src/int64.c:412-620 | for every a and every b but zero, over all branches: quotient * b + remainder == a with remainder < b |
| `LongDivision.DivideByHigh` | abstract-machine/klib/src/int64.c:446-507 | the branches for a divisor without low word |
| `LongDivision.DivideByLow` | abstract-machine/klib/src/int64.c:508-558 | the branches for a divisor without high word |
| `LongDivision.DivideAligned` | abstract-machine/klib/src/int64.c:559-589 | both high words set: a longer divisor gives 0 and a, else the difference of lengths is in range |
| `LongDivision.AlignedHigh` | abstract-machine/klib/src/int64.c:565-574 | with leading zeros aligned the remainder register starts below the divisor |
| `LongDivision.AlignedLow` | abstract-machine/klib/src/int64.c:531-535 | the same where the divisor has one word, with the shift in 1..63 |
| `LongDivision.LoadBoth` | abstract-machine/klib/src/int64.c:536-557 | loading r and q by words splits a 64-bit value at any shift from 1 to 63, with every shift count in range |
| `LongDivision.Round` | abstract-machine/klib/src/int64.c:598-615 | one round of the loop keeps the division of the bits moved in so far |
| `LongDivision.ShiftSubtract` | abstract-machine/klib/src/int64.c:597-619 | the loop from any loaded start ends with quotient and remainder |
| `LongDivision.SubtractIfNotLess` | abstract-machine/klib/src/int64.c:612-614 | the sign of d - r - 1 decides r >= d in every round that can occur, large divisors included |
| `LongDivision.PowerOfTwo` | abstract-machine/klib/src/int64.c:477-486 | where x & (x - 1) is 0, masking and shifting by x divide by it |
| `BitOperations.PowerOfTwoTest` | abstract-machine/klib/src/int64.c:477 | x & (x - 1) is 0 exactly for powers of two |
| `CountZeros.Clzsi2` | abstract-machine/klib/src/int64.c:626-655 | the number of leading zeros, without branches |
| `CountZeros.Ctzsi2` | abstract-machine/klib/src/int64.c:661-695 | the number of trailing zeros, without branches |
| `SignedDivision.DivDi3` | abstract-machine/klib/src/int64.c:355-365 | the truncated quotient modulo 2^64 |
| `SignedDivision.ModDi3` | abstract-machine/klib/src/int64.c:379-390 | the truncated remainder modulo 2^64 |
| `SignedDivision.DivModDi4` | abstract-machine/klib/src/int64.c:369-375 | both together |
| `SignedDivision.TruncatingDivision` | abstract-machine/klib/src/int64.c:353-390 | what these compute is the truncating division of section 6.5.5 of ISO C11 |
| `SignedDivision.TruncatingIsUnique` | abstract-machine/klib/src/int64.c:353-390 | and no other pair of numbers is |
| `SignedDivision.OnlyMinimumOverflows` | abstract-machine/klib/src/int64.c:353-390 | the quotient is exact except for the least value divided by -1; the remainder always is |
| `Queens.QueenBench.Dfs` | software-test/benchmarks/microbench/src/queen/queen.c:5-17 | counts the completions of the partial placement that the masks stand for, modulo 2^32 |
| `Queens.QueenBench.TryLowest` | software-test/benchmarks/microbench/src/queen/queen.c:10-14 | one round: the lowest free column, counted once |
| `Queens.QueenBench.Run` | software-test/benchmarks/microbench/src/queen/queen.c:26-28 | the number of solutions of the n queens puzzle modulo 2^32, for every board up to 32, as long as the mask has n bits |
| `Queens.QueenBench.Prepare` | software-test/benchmarks/microbench/src/queen/queen.c:21-24 | the mask has a bit for each column of the board and no other, which is what Run asks for |
| `Queens.Placed` | software-test/benchmarks/microbench/src/queen/queen.c:13 | placing a queen moves the three masks to those of the next row |
| `Queens.FreeSquares` | software-test/benchmarks/microbench/src/queen/queen.c:9 | the mask holds the squares of the next row that no queen attacks, and nothing is counted yet |
| `Queens.FreeIsNonAttacking` | software-test/benchmarks/microbench/src/queen/queen.c:9 | a square is free exactly when the placement with it has no two queens attacking |
| `Queens.FullRow` | software-test/benchmarks/microbench/src/queen/queen.c:6 | the row mask is full exactly when all queens stand |
| `Queens.OneMore` | software-test/benchmarks/microbench/src/queen/queen.c:10-14 | removing a column splits the completions into those counted and those through that column |
| `BitMasks.LowestBit` | software-test/benchmarks/microbench/src/queen/queen.c:11 | x & (~x + 1) isolates the lowest bit set |
| `MergeSort.Sort` | software-test/benchmarks/coremark/src/core_list_join.c:426-496 | for every list that is not empty and every consistent comparison: the same nodes, linked to the end, never descending, equal items as they were; with two nodes or more every item has been looked at |
| `MergeSort.Pass` | software-test/benchmarks/coremark/src/core_list_join.c:432-492 | one pass merges runs of w into runs of 2w, and one merge is counted exactly when the list fits |
| `MergeSort.MergePair` | software-test/benchmarks/coremark/src/core_list_join.c:439-482 | one merge of a pass, from finding the second run to stepping past it |
| `MergeSort.StepAlong` | software-test/benchmarks/coremark/src/core_list_join.c:441-448 | stepping insize places, or to the end of the list |
| `MergeSort.MergeRuns` | software-test/benchmarks/coremark/src/core_list_join.c:450-478 | both runs, in order, go to the end of the new list |
| `MergeSort.MergeStep` | software-test/benchmarks/coremark/src/core_list_join.c:454-478 | one node goes over, and the rest stays linked |
| `MergeSort.Choose` | software-test/benchmarks/coremark/src/core_list_join.c:456-469 | the four cases of the choice keep the new list sorted and stable |
| `MergeSort.Append` | software-test/benchmarks/coremark/src/core_list_join.c:471-477 | linking a node behind the tail disturbs no other link |
| `MergeSort.EndList` | software-test/benchmarks/coremark/src/core_list_join.c:484 | the new list is ended |
| `MergeSort.SortedIsUnique` | software-test/benchmarks/coremark/src/core_list_join.c:463-465 | the order reached is the only one: two sorted lists of all the nodes are the same |
| `MergeSort.EveryIndex` | software-test/benchmarks/coremark/src/core_list_join.c:426-496 | every node of the given list is in the sorted one |
| `ListOrder.CmpIdx` | software-test/benchmarks/coremark/src/core_list_join.c:112-118 | compares by idx and, without a results record, copies the upper data byte over the lower one in both items |
| `ListOrder.IdxIsConsistent` | software-test/benchmarks/coremark/src/core_list_join.c:112-118 | it is a consistent comparison |
| `MergeSort.SortByIdx` | software-test/benchmarks/coremark/src/core_list_join.c:188 | sorted by idx; with two nodes or more the lower data byte of every node equals its upper one |
| `UpdatableHeap.UpdatableHeap.Pop` | software-test/benchmarks/microbench/src/15pz/heap.h:75-96 | removes an element of least weight and nothing else; an empty heap stays empty |
| `UpdatableHeap.UpdatableHeap.Push` | software-test/benchmarks/microbench/src/15pz/heap.h:147-171 | an unknown element enters with its weight and path length, a lower weight replaces that of one in the heap, and one already popped leaves the heap array and its contents as they are; no path length of an earlier step changes, and no weight but that of the element |
| `UpdatableHeap.UpdatableHeap.Run` | software-test/benchmarks/microbench/src/15pz/heap.h:75-171 | over any sequence of both within the capacity, no element is popped twice, the path length of each is that of its first push, and its weight that of its shortest |
| `UpdatableHeap.UpdatableHeap.Length` | software-test/benchmarks/microbench/src/15pz/heap.h:183-188 | the path length of the first push of an element, and 2147483647 for one never pushed |
| `UpdatableHeap.LengthIsOfFirstPush` | software-test/benchmarks/microbench/src/15pz/heap.h:165-166 | after any sequence, length and weight of an element belong together exactly if no later push of it was shorter than the first: the weight is updated, the length is not |
| `UpdatableHeap.UpdatableHeap.FillUp` | software-test/benchmarks/microbench/src/15pz/heap.h:150-157 | M - 1 different elements fill the array: the next push passes the assertion and has no slot |
| `UpdatableHeap.UpdatableHeap.PercolateUp` | software-test/benchmarks/microbench/src/15pz/heap.h:133-145 | restores heap order and slot numbers from one light slot; from slot 1 it changes nothing |
| `UpdatableHeap.UpdatableHeap.PercolateDown` | software-test/benchmarks/microbench/src/15pz/heap.h:108-131 | restores heap order and slot numbers from a heavy root |
| `UpdatableHeap.UpdatableHeap.Swap` | software-test/benchmarks/microbench/src/15pz/heap.h:98-106 | two slots exchanged, each step knowing its new slot |
| `UpdatableHeap.UpdatableHeap.Pointer` | software-test/benchmarks/microbench/src/15pz/heap.h:190-199 | finds the one step of an element through its hash chain, or none |
| `UpdatableHeap.UpdatableHeap.File` | software-test/benchmarks/microbench/src/15pz/heap.h:155-157 | a new step at the head of its chain, with the path length given and the weight that adds the lower bound to it: each element once |
| `UpdatableHeap.UpdatableHeap.Enter` | software-test/benchmarks/microbench/src/15pz/heap.h:153-158 | the new step in the first free slot |
| `UpdatableHeap.UpdatableHeap.Lower` | software-test/benchmarks/microbench/src/15pz/heap.h:164-167 | a lower weight, and what it moves |
| `UpdatableHeap.UpdatableHeap.constructor` | software-test/benchmarks/microbench/src/15pz/heap.h:50-61 | an empty heap |
| `HeapOrder.RisingSwap` | software-test/benchmarks/microbench/src/15pz/heap.h:138-140 | exchanging a slot with its heavier parent moves the one place out of order up |
| `HeapOrder.SinkingSwap` | software-test/benchmarks/microbench/src/15pz/heap.h:112-126 | exchanging a slot with its lighter child moves it down |
| `HeapOrder.LeastFirst` | software-test/benchmarks/microbench/src/15pz/heap.h:81 | the first slot has the least weight |
| `Puzzle.TileMoves` | software-test/benchmarks/microbench/src/15pz/puzzle.h:203-305 | a legal move leaves the board of the tiles with blank and neighbour exchanged exactly if the new place of the blank fits its bytes, as it does up to 256 by 256; then it keeps the parity of inversions and blank together and changes the true distance by exactly one; up to 11 by 11 the stored distance and hash stay right |
| `Puzzle.MoveIs` | software-test/benchmarks/microbench/src/15pz/puzzle.h:168-305 | up to 256 by 256, each of the four moves by row and column: when it is possible, where the blank goes, which two cells change, and the bound n^3 of an impossible one |
| `Puzzle.PlayKeeps` | software-test/benchmarks/microbench/src/15pz/puzzle.h:203-305 | so does any sequence of such moves, and each brings the true distance down by at most one |
| `Puzzle.LegalIsInside` | software-test/benchmarks/microbench/src/15pz/puzzle.h:203-305 | up to 256 by 256 all legal moves are such |
| `Puzzle.ValidWhileLegal` | software-test/benchmarks/microbench/src/15pz/puzzle.h:168-214 | on boards of every size, a puzzle stays valid exactly as long as every move was possible when made |
| `Puzzle.SlidRegular` | software-test/benchmarks/microbench/src/15pz/puzzle.h:322-344 | sliding a tile flips the parity of the inversions and that of the place of the blank |
| `Puzzle.SolutionIsRegular` | software-test/benchmarks/microbench/src/15pz/puzzle.h:463-474 | the solution is even and 0 away |
| `Inversions.ExchangeFlips` | software-test/benchmarks/microbench/src/15pz/puzzle.h:334-342 | exchanging any two of different numbers flips the parity of the inversions |
| `Puzzle.StoredDistance` | software-test/benchmarks/microbench/src/15pz/puzzle.h:94-105 | the stored int8_t is the true sum exactly when that is at most 127, and never more than it |
| `PuzzleDistances.FitsUpTo5` | software-test/benchmarks/microbench/src/15pz/puzzle.h:94-105 | on boards up to 5 by 5 it is, for all tiles |
| `PuzzleDistances.OverflowsFrom6` | software-test/benchmarks/microbench/src/15pz/puzzle.h:94-105 | on every larger board there are tiles that are at least 210 away |
| `PuzzleDistances.SolvedButFar` | software-test/benchmarks/microbench/src/15pz/puzzle.h:203-305 | from 12 by 12 to 256 by 256 there is a puzzle three moves from the solution, measured right, whose lower bound is at least 2 once these moves have solved it |
| `PuzzleDistances.DistanceFollowsExactly` | software-test/benchmarks/microbench/src/15pz/puzzle.h:203-305 | the stored distance follows every legal move on every measured puzzle exactly on boards up to 11 by 11 |
| `PuzzleCells.CellsKept` | software-test/benchmarks/microbench/src/15pz/puzzle.h:92 | the int8_t cells hold the tiles themselves exactly up to 11 by 11; from 12 on, tile 143 is stored as -113 |
| `PuzzleCells.CellsDiffer` | software-test/benchmarks/microbench/src/15pz/puzzle.h:92 | different tiles have different cells exactly up to 16 by 16 |
| `PuzzleCells.MadeShows` | software-test/benchmarks/microbench/src/15pz/puzzle.h:94-97 | what the constructor makes shows the tiles given, the blank where it says, exactly when row and column of the blank are below 256 |
| `PuzzleCells.SmallMadeShows` | software-test/benchmarks/microbench/src/15pz/puzzle.h:94-97 | which they are up to 256 by 256 |
| `PuzzleCells.SolvableMeans` | software-test/benchmarks/microbench/src/15pz/puzzle.h:316-347 | up to 16 by 16, solvable() says whether the tiles are even, and the opposite on 13 by 13 and 15 by 15, where negative cells turn an odd number of pairs |
| `PuzzleCells.PlayKeepsSolvable` | software-test/benchmarks/microbench/src/15pz/puzzle.h:316-347 | up to 16 by 16, legal moves keep what solvable() says |
| `PuzzleCells.FlipsFrom17` | software-test/benchmarks/microbench/src/15pz/puzzle.h:316-347 | on every larger board there is a legal move that turns it, and that operator== does not notice |
| `PuzzleCells.SolutionIsSolvable` | software-test/benchmarks/microbench/src/15pz/puzzle.h:463-474 | the solution is even and 0 away; up to 16 by 16 it passes the test, except on 13 by 13 and 15 by 15 |
| `PuzzleCells.ReachesSolution` | software-test/benchmarks/microbench/src/15pz/puzzle.h:316-364 | what can reach the tiles of the solution is even and no further than its moves; nor is its lower bound more, if it is measured right |
| `PuzzleCells.ReachesSolvedCells` | software-test/benchmarks/microbench/src/15pz/puzzle.h:394-408 | up to 16 by 16 reaching the cells of the solution is reaching its tiles, and the test passes except on 13 by 13 and 15 by 15 |
| `PuzzleCells.CellsMisleadFrom17` | software-test/benchmarks/microbench/src/15pz/puzzle.h:394-408 | from 17 by 17 on it is not: tiles 1 and 257 exchanged show the same cells, at 17 by 17 with a lower bound of 32 |
| `PuzzleCells.BoardDeterminesPuzzle` | software-test/benchmarks/microbench/src/15pz/puzzle.h:394-408 | up to 16 by 16, measured puzzles with equal boards agree in every field, so comparing boards loses nothing |
| `PuzzleLoops.Create` | software-test/benchmarks/microbench/src/15pz/puzzle.h:78-115 | on boards of every size, valid exactly when every number up to the last appears once, and then the cells, distance, hash and the blank's bytes are those of the tiles |
| `PuzzleLoops.DetermineHash` | software-test/benchmarks/microbench/src/15pz/puzzle.h:121-130 | the hash of the board: the sum of the cells, each times 1973 to the number of cells behind it, modulo 2^32 |
| `Puzzle.HashIsSum` | software-test/benchmarks/microbench/src/15pz/puzzle.h:127 | so it is for the hash that every move computes |
| `Puzzle.DistanceOf` | software-test/benchmarks/microbench/src/15pz/puzzle.h:95-101 | the distance of a tile is that of its row and column from those where it belongs, and the blank's is 0 |
| `PuzzleLoops.SolvableTest` | software-test/benchmarks/microbench/src/15pz/puzzle.h:316-347 | the loops count the inversions and test the parity, on boards of every size |
| `PuzzleLoops.Equal` | software-test/benchmarks/microbench/src/15pz/puzzle.h:394-408 | equal exactly when both are valid and the boards are |
| `PuzzleLoops.Solution` | software-test/benchmarks/microbench/src/15pz/puzzle.h:463-474 | builds the solution, and shows it exactly up to 256 by 256 |
| `MatrixPower.FibBench.Run` | software-test/benchmarks/microbench/src/fib/fib.c:43-60 | square and multiply leaves the power of the companion matrix over 32-bit words, for every exponent, and its corner is the term of the recurrence |
| `MatrixPower.FibBench.Round` | software-test/benchmarks/microbench/src/fib/fib.c:52-60 | one bit of the exponent |
| `MatrixPower.FibBench.Mult` | software-test/benchmarks/microbench/src/fib/fib.c:16-24 | the matrix product over 32-bit words |
| `MatrixPower.FibBench.MultEntry` | software-test/benchmarks/microbench/src/fib/fib.c:19-22 | one entry of it |
| `MatrixPower.FibBench.Assign` | software-test/benchmarks/microbench/src/fib/fib.c:26-30 | a copy |
| `MatrixPower.FibBench.Fill` | software-test/benchmarks/microbench/src/fib/fib.c:44-50 | the companion matrix and the identity |
| `MatrixPower.PowerAdd` | software-test/benchmarks/microbench/src/fib/fib.c:52-60 | the product of two powers is the power of the sum |
| `MatrixPower.Associative` | software-test/benchmarks/microbench/src/fib/fib.c:16-24 | the product is associative |
| `MatrixPower.ProductOfReduced` | software-test/benchmarks/microbench/src/fib/fib.c:16-24 | reducing the factors modulo 2^32 does not change the reduced product |
| `MatrixPower.LastColumn` | software-test/benchmarks/microbench/src/fib/fib.c:3 | the last column of the n-th power holds the terms of f(n) = f(n-1) + ... + f(n-M) from the n-th on |

## Left out

- icache fill: a miss reads four words from pc, not from the line base, so the cache agrees with memory only where misses are aligned; F is a lookup in instruction memory instead.
- serial output, memory-mapped devices, ebreak, CSR and system instructions: decoded as doing nothing, as in the source's decoder; their effects are not modelled.
- remainders, and division by a low word of zero in the W forms, against the instruction set manual: the repository's own results are stated, not the manual's.
- Dinic.Network.Maxflow: sums of capacities are unbounded integers, not 32-bit ones.
- SuffixArray.Sort: counters and positions are unbounded integers; the benchmark's own text uses letters from 0, against the comment, and may or may not be `Sortable`.
- building the kernel's page table in vme_init for 32-bit targets: it is a given table that the address spaces share.
- several address spaces at once: one is modelled, with all other pages as free, kernel or user pages.
- user context creation, trap code and CR3 switching.
- Vme.AddressSpace.Map: says which panics occur and that they change no translation, not that the tables allocated on the way are given back; the source does not either.
- BfCompiler.Interpreter.Execute: runs for a given number of rounds, since programs need not end; the output buffer has no limit.
- bench_bf_run executes even when compilation failed; only compiled programs are executed here.
- Queens.QueenBench.Prepare: boards of more than 31 columns, where the source's shift is undefined.
- MergeSort.Sort: run lengths are unbounded integers (the source doubles a 32-bit one); cmp_complex, whose order depends on a checksum kept elsewhere, is not a comparison of this kind.
- the other list routines of CoreMark (find, reverse, remove, insert).
- UpdatableHeap.UpdatableHeap.Push: weights and path lengths are unbounded integers; that a path length is the length of a path on the board is a matter of the search, which is not modelled.
- the search loop of the 15-puzzle and its optimality, the random puzzle constructor, the visited flag that is never set.
- Hamming and discrete distance in lower_bound: code after its return statement.
- MatrixPower.FibBench.Run: the exponent is any natural number; the source's constant is one of them.
- floating point, other runtime routines of int64.c's header, and the remaining benchmarks and processor variants.
