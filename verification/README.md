# CronoVM: models and proofs

CronoVM translates LLVM functions to a 32-bit register machine and runs the result in a small
interpreter, with a C and C++ runtime of its own: an allocator, 64-bit integers and doubles in
software, exceptions by setjmp and longjmp, and libc++'s hash tables. This project models the parts of
it where an error would stay unnoticed longest, and proves what they promise.

`dafny verify dfyconfig.toml` checks everything.

**The back end of the translator.** `Ssa` says what an SSA function means and `Machine` what the
machine does. `RegAlloc` is the pre-allocation of registers and spill slots, `PhiCopy` the parallel
copy of an edge's phis, `Lowering` the code of instructions and edges, `Conditions` and `Branches` that
of conditional branches. Switches take four modules: `CopyRuns` and `Switches` say when their phi moves,
emitted before the dispatch, are right, `Dispatch` is the chain of comparisons and the jump table, and
`SwitchRuns` puts the pieces together. `Assembly`, `Placement`, `Fenwick`, `Relaxation` and `CodeGen` are
the branch relaxation and the resolution of fixups. `Emission` and `Terminators` place the code, and
`Compile` puts everything together: a method that compiles a function as `cg_function` does, and a theorem
that the finished code runs as the function does, whatever the input and however long the run. `Program`
compiles all functions of a program into one buffer and shows that each still runs so among the others.
`Liveness` and `CallSaves` are the liveness analysis and the registers saved around calls; `ValueMap` is
the hash table from values to registers; `WideLowering` and `Overflow` are the word sequences for 64-bit
operations and for overflow-checked arithmetic.

**The image file.** `Writer` and `WriteImage` are the writer, `Loader` the loader, `RoundTrip` the
theorem between them; `Format` says what each of the two does with a file in the format's own bytes and
numbers. `Seal` and `Bytes` are the integrity seal and its CRC, `Remainder` and `CrcCheck` what that CRC is.

**The runtime.** `HeapBlocks`, `Malloc` and `HeapRuns` are the allocator, from its block invariant to
whole runs of a client. `Int64` and the `Float` modules are the software arithmetic, judged against
integers and against IEEE 754-2019's definition of rounding, stated without reference to the code.
`Primes` and `NextPrime` are libc++'s `__next_prime`. `Exceptions` is the unwinder, compared with a
direct meaning of try, throw and catch, and the lifetime of exceptions, compared with what C++ says of it;
`ThrowingHandlers` are programs on which the two differ.

Methods and classes model code that works by changing things step by step, with a function beside them
that says what the outcome is; theorems are about those functions. `Words` and `Arith` hold the 32-bit
operators and the facts about products and quotients the proofs need.

## Model

| member | source | states |
|---|---|---|
| Compile.CompiledRuns | tools/translator/translator.c:4597-5640 | After any number of blocks of any run of an SSA function whose switches' moves are right, the finished machine code is at the same block with every value that may yet be read in its register or slot, has returned the same word having done the same to memory and system calls, or has trapped as well; branches, switches and calls included, and calls may leave anything at all in registers. |
| Compile.CompileFunction | tools/translator/translator.c:4597-4680 | Pre-allocation, liveness, the save area, emission, relaxation and resolution leave code that is the laid-out function under a non-interfering allocation, with every register that is live across a call saved and the least relaxation; this is what CompiledRuns is about. The code and the data that were there stay in front unchanged, the entry is right behind that code and no block before it. It succeeds for every function within stated bounds on parameters, phis and instructions, phis of an edge and edges of a switch, unless the code exceeds 0x3FFFFF words or DATA 2^32 bytes. |
| Program.ProgramRuns | tools/translator/translator.c:8590-8596 | In the finished code of a whole program any run of any of its functions, called at the entry recorded for it, leads where the SSA function's run does, the code of the other functions before and behind it notwithstanding; when the SSA function stops the code traps and does not run off its end. |
| Program.CompileProgram | tools/translator/translator.c:8590-8596 | The functions of a program, compiled in order into one buffer, all stand in it: each at the entry recorded, with its own code and tables as they were finished and the initial data unchanged; functions within the bounds all compile unless code or DATA becomes too long. |
| Terminators.EmitCondBr | tools/translator/translator.c:5318-5404 | Each of the two layouts of a conditional branch, chosen by which successors have phis, extends the program without disturbing it and sits where the simulation expects it. |
| Simulation.FunctionSimulated | tools/translator/translator.c:4597-5404 | Before relaxation, with branches of any reach, the code of a function runs as the function does for any number of blocks. |
| Simulation.AllBlocksSimulate | tools/translator/translator.c:4597-5640 | From any state that matches the entry of a block, the code laid out for that block runs as the block does, whatever its terminator; for a switch, when the moves are right and its condition is a word. |
| Branches.CondBrSimulated | tools/translator/translator.c:5318-5404 | Whichever way a condition goes, the code of the branch arrives at that successor's entry with its phis installed. |
| Branches.SideMatches | tools/translator/translator.c:5359-5404 | The moves of the side taken turn a state that matches the end of the block into one that matches the successor's entry. |
| Lowering.CallSimulated | tools/translator/translator.c:4436-4589 | Spill, call, restore and the move of the result carry every value needed after the call, in register or slot, from any state and whatever the callee leaves in registers. |
| Lowering.EdgeSimulated | tools/translator/translator.c:1984-2181 | A parallel copy of an edge's moves carries every value needed in the successor across the edge, phi results included. |
| PhiCopy.EmitPhiMoves | tools/translator/translator.c:1984-2181 | From any state the emitted moves leave in each destination what its source held before the first of them, cycles included, and change nothing else but the scratch registers; they are emitted whenever the scratch window suffices. |
| PhiCopy.PureCycles | tools/translator/translator.c:2083-2170 | When no destination is free to be written, the moves left are permutation cycles: every source is the destination of another of them. |
| RegAlloc.Allocator.PreAllocFunction | tools/translator/translator.c:3421-3593 | Every value gets a register or a slot, and two values share one only when one of them is dead before the other is defined. Among the values before it, an instruction's value gets a register that is free there exactly when one is, that is, when all values that have had it are done with in this block; otherwise a value gets a register no other has had, and a slot only when R8 to R229 have all been given. It fails only for more parameters than registers. |
| RegAlloc.LiveValuesDontShare | tools/translator/translator.c:3365-3419 | Two values live at the same position never share a place, liveness being defined by walks of the control-flow graph and not by the allocator. |
| RegAlloc.ResultNotAnOperand | tools/translator/translator.c:3556-3586 | An instruction's result never shares a place with one of its operands. |
| Fenwick.FenAdd | tools/translator/translator.c:1684-1686 | Adding a position to the tree makes it represent the set with that position. |
| Fenwick.FenBelow | tools/translator/translator.c:1687-1691 | The tree answers how many positions of the set lie below any other. |
| CodeGen.DecideRelaxations | tools/translator/translator.c:1693-1748 | The passes to a fixed point mark exactly the branches of the least set that is closed: each branch left short reaches its target once the others have grown. |
| Relaxation.MustRelax | tools/translator/translator.c:1723-1748 | A branch that does not reach under a relaxation contained in every closed set belongs to every closed set. |
| CodeGen.Cg.Finish | tools/translator/translator.c:1643-1864 | Relaxation and resolution rewrite code, block offsets, fixups and jump tables into the final form of the least relaxation, leave DATA outside the tables' slots as it was, and succeed whenever twice the code's length is within 24-bit reach. |
| CodeGen.PrefixKept | tools/translator/translator.c:1749-1783 | Where no branch is to be resolved, in the code of earlier functions, the finished code is the code as it was at the same positions. |
| Relaxation.RunSimulated | tools/translator/translator.c:1693-1864 | Every run of the unrelaxed program, with branches of any reach, is a run of the final code at the moved positions, in at most twice as many steps. |
| Liveness.ComputeLiveness | tools/translator/translator.c:3709-3776 | The iteration ends in a solution of the dataflow equations in which a register is live out of a block exactly when some walk from there reads it before writing it. |
| Liveness.ExactIsLeast | tools/translator/translator.c:3728-3776 | That solution is the least of all solutions of the equations. |
| CallSaves.LiveValueRegister | tools/translator/translator.c:3601-3672 | Where a value is live by SSA walks, its register is live by register walks, although registers are shared. |
| CallSaves.ComputeCallLiveouts | tools/translator/translator.c:3780-3823 | Each call gets exactly the set of registers live just after it. |
| CallSaves.LiveValuesSurvive | tools/translator/translator.c:3854-3887 | Every value needed after a call, other than its result, is in its register again after spill, call and restore. |
| CallSaves.SavedSurvive | tools/translator/translator.c:3866-3887 | Spill and restore bring back every saved register and touch no frame word outside the compact save area. |
| CallSaves.SaveOffset | tools/translator/translator.c:3866-3876 | The words of the save area are at the allocas' end plus four bytes a slot, wherever the value-spill area above them starts. |
| Switches.SwitchMovesIff | tools/translator/translator.c:5410-5462 | The moves of all successors of a switch, run one after the other before the dispatch, leave the machine ready to enter the successor that is chosen, from every state of words, exactly when composing them brings each value the successor needs from where it is to come from, given what the choice tells of the condition, and leaves the condition in its register (or no case leads elsewhere than the default). |
| Switches.SwitchEnters | tools/translator/translator.c:5410-5462 | Under that condition the emitted code of the condition and of the moves brings the machine, from any state that matches the end of the block, to the entry of the successor the SSA switch chooses, which the condition's register still chooses. |
| Switches.ApartIsRight | tools/translator/translator.c:5417-5425 | The condition holds when no edge's moves write what a later edge's moves read, what is in place already, or the condition's register, and edges that write one place write it from one source. |
| Switches.LoopGoesWrong | tools/translator/translator.c:5417-5425 | In a loop whose back edge is a case of its own switch the exit returns the next value of the phi instead of the current one. |
| Switches.LoopIsNotRight | tools/translator/translator.c:5417-5425 | That loop does not meet the condition. |
| CopyRuns.CopiesRightIff | tools/translator/translator.c:5457-5462 | Parallel copies run one after the other each give their destinations what the sources held before the first of them, from every state, exactly when the copies composed send each destination to its own source; and they keep a location exactly when they send it to itself. |
| CopyRuns.TwiceIff | tools/translator/translator.c:5460-5462 | For two cases with one target, making its copy twice is right exactly when the copy reads none of its destinations. |
| CopyRuns.SwapThrice | tools/translator/translator.c:5460-5462 | For three cases with one target a swap is right, although each copy reads what the one before it wrote. |
| SwitchRuns.SwitchSimulated | tools/translator/translator.c:5439-5630 | When the moves are right, the code of the condition, of all the moves and of the dispatch, chain or table, arrives at the entry of the successor the switch chooses with exactly that edge's phis installed. |
| Dispatch.DispatchGets | tools/translator/translator.c:5530-5630 | The emitted comparisons and branches, or the emitted subtraction, range test, jump through DATA and jump to the default, arrive at the block that comparing with the cases one after the other chooses, and disturb only the scratch window. |
| Dispatch.ChooseDispatch | tools/translator/translator.c:5464-5527 | A table is built exactly when there are four cases or more within a span, as signed numbers, of twice as many; its slot for every 32-bit condition names the block the cases choose, and at most half its slots are no case's. |
| Terminators.EmitSwitch | tools/translator/translator.c:5439-5630 | Moves, table entries and dispatch of a switch extend the program without disturbing it and sit where the simulation expects them; it succeeds when at most six edges lead to blocks with phis. |
| Terminators.EmitSwitchMoves | tools/translator/translator.c:5457-5462 | The moves of the default and of every case are emitted in that order, each a parallel copy in its own scratch window above the condition's register. |
| ValueMap.Map.Lookup | tools/translator/translator.c:1276-1286 | The hash table answers the first index a value was assigned, or none, as the linear search it replaced would. |
| ValueMap.Map.Assign | tools/translator/translator.c:1251-1319 | Assigning a value appends it, through probing, growth and rehashing, and keeps every earlier answer. |
| ValueMap.Map.Reset | tools/translator/translator.c:1127-1131 | Resetting forgets every assignment and keeps the table's storage. |
| WideLowering.Emitter.LowerAdd | tools/translator/translator.c:3053-3069 | The words emitted for a 64-bit addition leave in the result pair the sum modulo 2^64, and keep every register handed out before. |
| WideLowering.Emitter.LowerSub | tools/translator/translator.c:3068-3073 | The words emitted for a 64-bit subtraction leave the difference modulo 2^64. |
| WideLowering.Emitter.LowerMul | tools/translator/translator.c:3084-3103 | The words emitted for a 64-bit product leave the product modulo 2^64. |
| WideLowering.Emitter.LowerShl | tools/translator/translator.c:3126-3197 | The words emitted for a left shift by a constant, one sequence for each range of the constant, leave the value times that power of two modulo 2^64; they are emitted exactly when the registers left suffice for that range. |
| WideLowering.Emitter.LowerShr | tools/translator/translator.c:3126-3197 | The words emitted for a right shift by a constant leave the quotient by that power of two, rounded down, logical or arithmetic as asked; they are emitted exactly when the registers left suffice. |
| WideLowering.Emitter.LowerOrdered | tools/translator/translator.c:5006-5048 | The flag emitted for a 64-bit comparison is that of the numbers, signed or not, strict or not. |
| WideLowering.Emitter.LowerEqual | tools/translator/translator.c:5006-5048 | The flag emitted for a 64-bit equality test is that of the numbers. |
| Overflow.UAdd32 | tools/translator/translator.c:7396-7408 | The word of a checked 32-bit addition is the sum modulo 2^32, and the flag is set exactly when the true sum is 2^32 or more. |
| Overflow.UMul32 | tools/translator/translator.c:7396-7415 | The same for a checked 32-bit multiplication. |
| Overflow.UAdd64 | tools/translator/translator.c:7480-7501 | The words of a checked unsigned addition leave the sum modulo 2^64, and the flag exactly when the true sum is 2^64 or more. |
| Overflow.UMul64 | tools/translator/translator.c:7502-7543 | The words of a checked unsigned multiplication leave the product modulo 2^64, and the flag exactly when the true product is 2^64 or more. |
| Overflow.SAddNarrow | tools/translator/translator.c:7452-7479 | For signed numbers of 33 to 63 bits in two words, the result is the number of that width congruent to the sum, and the flag is set exactly when the sum is not such a number. |
| Overflow.SAdd65 | tools/translator/translator.c:7416-7451 | The same for 65-bit numbers in three words, the third a sign word. |
| HeapBlocks.TilesExactly | runtime/lib/cvm_alloc.h:9-26 | Every address of the heap lies in exactly one block. |
| HeapBlocks.AllFreeIsOneBlock | runtime/lib/cvm_alloc.h:131-156 | A heap in which nothing is live is one free block, alone on the free list. |
| HeapBlocks.LiveBlocksApart | runtime/lib/cvm_alloc.h:62-81 | Live blocks are disjoint and lie inside the heap. |
| Malloc.Allocator.Alloc | runtime/lib/cvm_alloc.h:103-129 | Null exactly when nothing was asked for or no free block is large enough; else the first fit from the head of the list, split when the rest makes a block, with nothing else changed; the payload holds the request exactly when the request is at most 0x7FFFFFF4. |
| Malloc.MallocedFits | runtime/lib/cvm_alloc.h:103-129 | The block granted is the first on the free list that is large enough, carved as told. |
| Malloc.LargestIntWraps | runtime/lib/cvm_alloc.h:106-109 | On a fresh heap a request of 0x7FFFFFFF bytes is granted the smallest block there is. |
| Malloc.Allocator.Free | runtime/lib/cvm_alloc.h:131-156 | Freeing a live block turns it and its free neighbours into one free block and changes no other block and no word of a live payload; freeing null does nothing. |
| HeapRuns.Drive | runtime/lib/cvm_alloc.h:83-156 | The allocator's own calls, made one after the other with client stores between them, take the heap where the run of the steps says, from any initialised or uninitialised heap. |
| HeapRuns.LiveBlocksKept | runtime/lib/cvm_alloc.h:103-156 | Over any run of requests, releases and stores of the client into its payloads, a block that is not released stays where it is with its size, and each word of it holds the last value the client stored there. |
| HeapRuns.RequestGives | runtime/lib/cvm_alloc.h:103-129 | What a successful request returns was not live before, is live after, and its bytes are the client's to write. |
| HeapRuns.OutsideKept | runtime/lib/cvm_alloc.h:62-156 | No run changes a word outside the heap. |
| HeapRuns.FreeingAllRestores | runtime/lib/cvm_alloc.h:131-156 | Releasing every live block, in any order and with stores between, leaves the heap one free block, as it was before the first request. |
| Int64.Shl64 | runtime/lib/cvm_int64.h:116-125 | A left shift is multiplication by 2^(n mod 64) modulo 2^64. |
| Int64.Sar64 | runtime/lib/cvm_int64.h:138-149 | An arithmetic right shift is division by 2^(n mod 64) rounded down. |
| Int64.Mul64 | runtime/lib/cvm_int64.h:94-107 | The product of the low words and the crossed products give the product modulo 2^64. |
| Int64.UDivMod | runtime/lib/cvm_int64_rt.c:26-44 | The bitwise loop gives quotient and remainder; dividing by zero gives all ones and the dividend. |
| Int64.SDiv | runtime/lib/cvm_int64_rt.c:65-71 | Signed division truncates toward zero and wraps only for the least number by minus one. |
| Int64.SMod | runtime/lib/cvm_int64_rt.c:73-80 | The signed remainder is what truncating division leaves, with the dividend's sign. |
| Int64.Fshl64 | runtime/lib/cvm_int64_rt.c:97-103 | A funnel shift left is the high half of the 128-bit shift. |
| Int64.Fshr64 | runtime/lib/cvm_int64_rt.c:104-110 | A funnel shift right is the low half of the 128-bit shift. |
| FloatDiv.Div | runtime/lib/cvm_float64.h:545-633 | The quotient of any two normal doubles is the double nearest to the exact quotient, ties to even; it is zero or infinite exactly beyond the range. Special operands give the IEEE results: NaN for 0/0, infinity/infinity and NaN operands and for nothing else, and then the words 0 and 0x7FF80000. |
| FloatMul.Multiply | runtime/lib/cvm_float64.h:412-491 | The product of any two normal doubles is the exact product truncated toward zero, flushed below the normal range and infinite from 2^1024 on; it is NaN for NaN operands and infinity times zero and for nothing else, and then the words 0 and 0x7FF80000. |
| FloatAdd.AddDoubles | runtime/lib/cvm_float64.h:319-403 | A sum of like signs is the exact sum truncated toward zero; a difference is the exact difference rounded up in magnitude to the larger operand's last place; equal magnitudes give +0 and a tiny difference is flushed. The result is NaN for NaN operands and infinities of unlike signs and for nothing else, and then the words 0 and 0x7FF80000. |
| FloatFormat.Classes | runtime/lib/cvm_float64.h:66-99 | Which pairs of words are NaN, infinite, zero and normal, and the sign, by the numbers the words are. |
| FloatAdd.DifferenceError | runtime/lib/cvm_float64.h:340-403 | A difference is off by less than one last place of the larger operand, and is the truncated one the header describes exactly when the exact difference is a multiple of that place. |
| FloatAdd.DifferenceNotTruncated | runtime/lib/cvm_float64.h:308-403 | 1 less 2^-54 comes out as the words of 1, which is not the truncated difference. |
| FloatConv.FromU64 | runtime/lib/cvm_float64_rt.c:63-71 | A 64-bit integer converts to the largest double not above it. |
| FloatConv.FromI64 | runtime/lib/cvm_float64_rt.c:72-75 | A signed 64-bit integer converts to the double nearest to it among those no larger in magnitude. |
| FloatConv.FromU64NearestIff | runtime/lib/cvm_float64_rt.c:57-71 | The conversion is the correctly rounded one exactly when what is cut off is less than half a last place, or just half beside an even significand. |
| FloatConv.HalfwayNotRounded | runtime/lib/cvm_float64_rt.c:57-71 | For 2^53 + 3 the conversion is not the correctly rounded one. |
| FloatConv.FromU64Exact | runtime/lib/cvm_float64_rt.c:63-71 | Below 2^53 the conversion is exact. |
| FloatConv.FromU32 | runtime/lib/cvm_float64.h:220-241 | A 32-bit integer converts exactly. |
| FloatConv.OneConverts | runtime/lib/cvm_float64.h:80 | The integer one converts to the words 0 and 0x3FF00000. |
| FloatConv.ToI32 | runtime/lib/cvm_float64.h:262-290 | A double converts to its integral part, saturated to 32 signed bits; NaN gives zero. |
| FloatConv.ToU32 | runtime/lib/cvm_float64.h:291-306 | A double converts to its integral part, saturated to 32 unsigned bits; NaN gives zero. |
| FloatConv.I32RoundTrip | runtime/lib/cvm_float64.h:242-290 | A 32-bit integer converted to a double and back is itself. |
| FloatConv.DLess | runtime/lib/cvm_float64.h:131-146 | The comparison of bit patterns is the comparison of values, false for NaN, with both zeros equal. |
| NextPrime.NextPrime | runtime/lib/libcxx/src/hash.cpp:54-447 | The result is the least prime not below the argument; zero gives zero, and the overflow error comes exactly above 0xFFFFFFFB. |
| NextPrime.IsPrimeCandidate | runtime/lib/libcxx/src/hash.cpp:80-438 | For a number coprime to 210 the trial divisions over the wheel of 48 residues say prime exactly when it is prime. |
| NextPrime.LowerBound | runtime/lib/libcxx/src/hash.cpp:66-78 | The binary search of a sorted table gives the first entry not below the key. |
| RoundTrip.LoadsWhatWasWritten | tools/translator/translator.c:7796-8039 | The loader accepts a written file exactly when the job is valid, and then builds the image the job describes: code, functions, imports by name, regions at their addresses, heap contents. |
| WriteImage.WriteBin | tools/translator/translator.c:7796-8039 | The bytes written are header, section table and sections laid out one after the other, sealed if asked. |
| Writer.FileIsAssembled | tools/translator/translator.c:7860-8020 | The sections of any job that fits in 32 bits are properly numbered, sized and assembled. |
| Format.AcceptedIff | src/cvm.c:296-478 | A file is accepted exactly when it begins with the bytes of "CVM1", version 1.0 and no flags, its table lies inside it, every record is of kind 1 to 12 with no flags and, but for kinds 3, 6 and 7, inside the file, no two records are of one kind other than 5, one is of kind 1, kinds 1 and 8 are whole words, and entry, regions, imports, functions, stack and the 32-bit size of memory are in order. |
| Format.LoadedIs | src/cvm.c:345-590 | What an accepted file is loaded to, by the numbers of its sections: the words of kind 1 are the code and of kind 8 the functions, memory is the bytes of kind 2, zeros for kind 3 and for the regions of kind 9 one after the other, the bytes of kind 10, and zeros for kinds 6 and 7; the names are those of kind 4, and kinds 5, 11 and 12 play no part. |
| Format.WrittenIs | tools/translator/translator.c:7796-8021 | The records of a written file: kind 1 for the code, 2 data, 4 imports, 6 and 7 the reserves, 8 functions, 9 regions, 10 ROM and 11 metadata, each with the payload or the size it stands for and left out when that is empty, and none of kinds 3 and 5. |
| Format.SealWritten | tools/translator/translator.c:7983-8036 | A sealed file ends in a section of kind 12 with "CRM1", version 1 and the CRC of all bytes before it; any other has none. |
| Loader.LoadEx | src/cvm.c:296-603 | The loader fails with the first fault of the file in the order of the checks, and otherwise builds the image its sections describe. |
| ImageFile.FindBack | src/cvm.c:310-370 | Scanning the section table of an assembled file finds each section at its offset and finds no others. |
| Seal.SealedPasses | src/cvm.c:285-294 | A file written with a seal passes the check, one written without has no seal. |
| Format.VerdictIs | src/cvm.c:285-294 | The check of any file answers 0 exactly without a section of kind 12, 1 exactly when the first one is inside the file, begins with "CRM1" and has at byte 8 the CRC of all bytes before it, and -1 otherwise. |
| Seal.DamageIsNoticed | src/cvm.c:285-294 | Changing any one byte of a sealed file's sections is noticed, but for the four bytes of the seal's version word, which the check does not look at. |
| Seal.MemoryIsFilled | src/cvm.c:480-590 | After loading, each byte of memory comes from the DATA section or the ROM section, and is zero elsewhere. |
| Bytes.CrcDetects | src/cvm.c:274-283 | Changing one byte changes the CRC, whatever the bytes before and after it. |
| Bytes.Crc32 | src/cvm.c:274-283 | The loop over bytes and bits computes the CRC function, which CrcIsRemainder pins down. |
| Remainder.CrcIsRemainder | src/cvm.c:274-283 | The complement of the CRC is the remainder over GF(2) of the file, lowest bit of each byte first, times x^32 with its first 32 bits complemented, by the polynomial with the exponents 32, 26, 23, 22, 16, 12, 11, 10, 8, 7, 5, 4, 2, 1 and 0. |
| Remainder.RemainderUnique | src/cvm.c:274-283 | A polynomial has one remainder below x^32, so that the CRC is determined by the division. |
| CrcCheck.CheckValue | src/cvm.c:274-283 | The CRC of the bytes "123456789" is 0xCBF43926. |
| Exceptions.LoweringIsFaithful | tools/translator/translator.c:5656-5819 | The lowered program halts exactly when the direct meaning of calls, try and throw does, and then with the same outcome. |
| Exceptions.LandingSelects | runtime/lib/cvm_cxxrt.cpp:191-218 | A landing pad gets 0 or the type of the first clause that takes what is thrown, a clause taking everything or what is or publicly derives from its type; without one it gets 0 if it has a cleanup, and is passed over otherwise. There is no other selector. |
| Exceptions.InvokeLands | runtime/lib/cvm_cxxrt.cpp:191-218 | An invoke whose callee throws goes on at its landing pad with that selector, or passes the exception on. |
| Exceptions.ChainIsOpenInvokes | tools/translator/translator.c:5656-5819 | At every point of every run the chain of landing frames is exactly the invokes of the open activations, innermost first. |
| Exceptions.ThrowLandsInnermost | runtime/lib/cvm_cxxrt.cpp:191-218 | A throw passes over the open invokes whose clauses and cleanup do not take the exception, innermost first, and lands in the next with the selector of its first clause that takes it or 0 for a cleanup, or terminates when none is left. |
| Exceptions.Runtime.Unwind | runtime/lib/cvm_cxxrt.cpp:191-218 | The walk of the frame chain passes over frames that do not take the exception, by the type relation of SearchIff, and stops at the first that does, already popped and with its selector, or ends with none. |
| Exceptions.DestroyedOnce | runtime/lib/cvm_cxxrt.cpp:244-283 | In every run, whatever handlers and destructors do, an exception is destroyed exactly when the handler count kept for it comes down to zero before the next throw, and none is destroyed twice. |
| Exceptions.DestroyedOnTimeIff | runtime/lib/cvm_cxxrt.cpp:244-283 | When the handler that ends is the last that C++ keeps an exception for, the runtime destroys it there exactly when nothing has been thrown since and it has flown out of an even number of other exceptions' handlers. |
| Exceptions.AllDestroyedIff | runtime/lib/cvm_cxxrt.cpp:244-283 | In every run C++ allows, with handlers that throw, rethrow and nest, all exceptions thrown have been destroyed exactly when none was thrown while another was there, in flight or being handled, and none is there now. |
| ThrowingHandlers.ThrowingHandlerLeaks | runtime/lib/cvm_cxxrt.cpp:244-275 | In a program whose handler throws another exception that is then caught, every handler ends and neither exception is destroyed. |
| ThrowingHandlers.RethrownIsMissed | runtime/lib/cvm_cxxrt.cpp:276-283 | A handler that handles another exception and then throws its own again terminates the program although that exception has a handler. |
| ThrowingHandlers.FlyingIsDestroyed | runtime/lib/cvm_cxxrt.cpp:254-283 | A destructor that throws again, and catches, what is in flight destroys it while it is in flight. |
| ThrowingHandlers.HandlerBesideCleanup | runtime/lib/cvm_cxxrt.cpp:199-218 | Where a frame has a clause and a cleanup, an exception the clause takes runs the destructor and then the handler, and is destroyed. |
| ThrowingHandlers.CleanupBesideHandler | runtime/lib/cvm_cxxrt.cpp:199-218 | There an exception no clause takes runs the destructor and goes on. |
| Exceptions.SearchIff | runtime/lib/cvm_cxxrt.cpp:101-131 | The type search succeeds exactly when some public path to the type ends at an offset that is not negative. |
| Exceptions.MatchIsRight | runtime/lib/cvm_cxxrt.cpp:183-188 | Without virtual bases a clause matches exactly when the thrown type is the type or publicly derives from it. |
| Exceptions.VirtualBaseMissed | runtime/lib/cvm_cxxrt.cpp:183-188 | With a virtual base whose offset reads as negative, a type that publicly derives does not match. |

## Findings

Where the code does not do what its documentation or interface promises, the model follows the code.

- The phi moves of a switch are emitted for all successors before the dispatch
  (tools/translator/translator.c:5460-5462), on the ground that each successor's phi registers are its own
  (the comment above, and docs/translator.md:472-477). That does not keep one edge's moves from
  overwriting what another edge still reads. They are right exactly when composing all of them, in order,
  brings each value the chosen successor needs from where it is to come from and keeps the condition
  (`SwitchMovesIff`), which can be checked before anything is emitted. A loop whose back edge is a case of
  its own switch returns the wrong value (`LoopGoesWrong`, `LoopIsNotRight`); cases with one target make its
  moves once each, and two of them undo a swap (`TwiceIff`) where three do not (`SwapThrice`).
- docs/translator.md:465-470 describes the dispatch of a switch as a chain of comparisons; the code also
  builds jump tables (tools/translator/translator.c:5464-5589), and the model has both.
- `__cvm_f_from_u64` (runtime/lib/cvm_float64_rt.c:57-71) is described as correctly rounded. Its last
  step is an addition that truncates, so it is not: for 2^53 + 3 it gives 2^53 + 2, and the nearest
  double with an even significand is 2^53 + 4 (`HalfwayNotRounded`). It is correctly rounded exactly when
  the bits cut off are less than half a last place, or just half beside an even significand
  (`FromU64NearestIff`); below 2^53 nothing is cut off (`FromU64Exact`).
- `cvm_malloc` (runtime/lib/cvm_alloc.h:107-109) rounds the request up in 32 bits. A request above
  0x7FFFFFF4 wraps and is granted a block too small for it; at or below, the block is large enough
  (`Allocator.Alloc`, both directions). A request of 0x7FFFFFFF on a fresh heap is granted a block of 16
  bytes, or the whole heap if that cannot be split (`LargestIntWraps`).
- `cvm_d_add` is described as truncating (runtime/lib/cvm_float64.h:308). For unlike signs it rounds the
  magnitude up, since the smaller operand is truncated before it is subtracted; the result is the
  truncated one exactly when the difference is a multiple of the larger operand's last place
  (`DifferenceError`). 1 - 2^-54 gives 1 (`DifferenceNotTruncated`).
- Catch clauses are matched against a dummy object (runtime/lib/cvm_cxxrt.cpp:183-188), so the offset of
  a virtual base is read from memory that is not the object's vtable. The match is right for every type
  when no virtual base is on the way (`MatchIsRight`); a public virtual base is missed when the offset
  read is negative (`VirtualBaseMissed`), and the exact condition is `SearchIff`.
- The runtime knows one exception at a time (runtime/lib/cvm_cxxrt.cpp:244-283). A throw from inside a
  handler replaces the one being handled, which is never destroyed; and the end of that handler, which the
  new exception flies out of, counts the new one's handlers wrongly, so that it is not destroyed either
  (`ThrowingHandlerLeaks`). A handler that has handled another exception in between can no longer throw its
  own again (`RethrownIsMissed`). An exception is destroyed on time exactly when there has been no throw
  since its own and it flew out of an even number of other handlers (`DestroyedOnTimeIff`); all are
  destroyed exactly when no two are ever there at once and the last handler ends (`AllDestroyedIff`).
- The comment at tools/translator/translator.c:3564-3571 says a destination may share the register of an
  operand. Under the allocator as written it never does (`ResultNotAnOperand`).
- The check of a seal ignores the seal's version word (`DamageIsNoticed`).

## Left out

- CompiledRuns: the lowering of an instruction other than a call is opaque work on its operands' words, and the placing of a call's arguments is part of the call; functions with an invoke terminator, and values wider than a word, are not covered; in a function with a switch, work and calls are taken to give words.
- ProgramRuns: what a call does is its given meaning, as in CompiledRuns; that this is what the code of the function called does is not part of it.
- CompileFunction: the bounds under which it succeeds are sufficient and not necessary; the fallback for a call whose snapshot is missing is kept but proved never to be used.
- DispatchGets: the shift, addition and load that find a table's word are one step with the jump through it.
- LiveValuesSurvive: the callee is assumed to restore SP, to set the zero register and not to write the caller's frame.
- PreAllocFunction: aliased spill slots and the slots of wide values are not modelled.
- ComputeCallLiveouts: the operands an invoke adds to the registers that need a slot are not modelled.
- EmitPhiMoves: the interning of locations is a map instead of parallel arrays searched linearly.
- AddDoubles: subnormal operands are unconstrained, since the code gives them a leading one they do not have.
- Multiply: the same.
- Div: the same.
- WriteBin: allocation and file errors are left out, and files are smaller than 2^32 bytes; the optional sections are a loop over a list where the code has an if for each.
- DamageIsNoticed: bytes of the header and the section table are left out, since changing the seal's own record there makes the file an unsealed one.
- LowerAdd: bitwise operations, shifts by a variable and comparisons against 65-bit values are left out, and the lowering of 64-bit division is a call of the runtime modelled in Int64.
- LoweringIsFaithful: the lowered program is the same code under a chain of frames, and the words of SETJMP, the branch on its result and LONGJMP are not emitted; register contents after longjmp are not modelled, type_info forms a tree, and a destructor leaves a mark that its object was destroyed.
- MatchIsRight: a public base that is ambiguous counts as a base, where C++ would not let it match.
- DestroyedOnTimeIff: is about runs in which a destructor called while an exception is in flight does not throw that exception again, which FlyingIsDestroyed shows to be destroyed early.
- NextPrime: integers are unbounded, with the overflow check where the code has it, and the trial divisions written out one by one are a loop over the table of steps.
- Alloc: the additions wrap as the virtual machine's ADD does, although signed overflow is undefined in C.
- Lookup: the capacity is not bounded by the width of its field.
- The LLVM API, vectors, aggregates, select, intrinsics and atomics.
- Prologues and the layout of allocas in the frame.
- Single-precision floats, fsqrt, NaN payloads and the interpreter's host floating-point instructions.
- The assembler, the disassembler, syscalls of the host, profiling and diagnostics.
- The binding of built-in imports and the failure of host allocation in the loader.
- The primality of 0xFFFFFFFB, which the overflow check of `__next_prime` relies on, is not proved; the theorem says the bound is where the code puts it.
