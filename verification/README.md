# Unwinder and driver proofs

A Dafny model of the parts of the operating system whose behaviour is hardest to see from
reading one function: the C++ exception unwinder (`libunwind` and the personality routine of
`libsupc++`), and four pieces of the kernel and its libraries with state or arithmetic of their
own (the block device layer, the PS/2 mouse, the clock's calendar, CHS addressing and the
aligned allocator).

`dafny verify dfyconfig.toml` checks the whole project.

## How the model is built

* Memory that the unwinder reads is an immutable map from addresses to bytes (module `Memory`).
  64-bit words are integers below 2^64 with every wrap-around written out (`Words`), and
  bitwise operators are defined digit by digit.
* A computation of the unwinder ends in an `Outcome`: a value; `Abort`, where the source calls
  `ABORT`, which prints and exits; `Fault`, where C++ gives the step no meaning (a read of
  unmapped memory, a shift by 64 or more, a LEB128 number of more than ten bytes, a pointer that
  leaves the address space); or `Timeout`. Signed arithmetic is two's complement.
* Loops that the source does not bound (the expression machine, chains of actions, the walk over
  the frames, the two loops of `RTC_int_to_time`) take a step budget. `Timeout` says that it ran
  out; `Loops.MoreFuel`, `Expression.ParseFuel`, `Unwind.UnwindFuel`, `Personality.ScanFuel` and
  `TwoPhase.RaiseFuel` prove that every other outcome is independent of the budget, so a statement
  about an outcome is one about the unbounded loop.
* Where the source changes things step by step there are two layers. A function says what one
  operation computes, and a method in the source's form (arrays, objects with fields, loops with
  invariants) is proved equal to it: `ExpressionArray` to `Expression`, `CfiMachine` to `Cfi`,
  `EhFrameObjects` to `EhFrame`, `Context` and `RaiseException` to `Personality` and `TwoPhase`.
  The theorems are about the functions and hold of the methods through that equality.
* What a function computes is stated apart from the function: operators by integer arithmetic and
  single bits (`Operators`), expression blocks by trees (`ExpressionCompiler`), call-frame programs
  by instructions (`CfiProgram`), sections and tables by the lists they were written from
  (`EhFrameSection`, `LsdaTables`), a throw by the frames and tables of the process (`Throwing`).
* The disk may transfer fewer blocks than asked for, or fail, at every call, and memory may run
  out at every `malloc`; both are nondeterministic choices, so contracts hold for all schedules.
  Ghost counters record how often each has refused, so that contracts can say that a call fails
  exactly if one of them did.

Two C++ expressions read a cursor and move it without an order between the two. They are fixed as
follows: in `p + decode_uleb128(&p)` (libunwind/src/dwarf4.cpp:197) the left operand is read first;
in `*p += decode_uleb128(p)` the right one, so that the block is skipped as a whole.

## What was found

Where the code does not do what its comments or callers expect, the model keeps the code, and the
exact condition is proved.

* The length of an expression block is added to the address of its length field instead of its
  code. The loop runs exactly the instructions that start at most length minus field size bytes
  behind the first (`ExpressionCompiler.ParseBlock`). The whole block runs if and only if its last
  instruction is at least as long as the length field (`ExpressionCompiler.WholeBlockRuns`), as in
  every block below 128 bytes; a longer one that ends with a one-byte operator is evaluated without
  it (`ExpressionCompiler.ParseLongBlock`), which for `DW_OP_not` is always a different value
  (`ExpressionCompiler.LongBlockDiffers`).
* A step on a call-frame instruction does what the standard means if and only if it is not
  `DW_CFA_register`, which copies the kind of a rule instead of naming a register, does not turn a
  CFA that is an expression into a register and an offset, and does not remember an eleventh row
  (`CfiProgram.StepMeans`, `CfiProgram.InRegisterUnreachable`, `CfiProgram.CfaStaysExpression`).
  `DW_CFA_set_loc` takes an absolute address for a distance from the start of the function
  (`CfiProgram.SetLocMeans`).
* The early-stopping pass over a call-frame program is the table lookup of the standard if and only
  if the table never comes back to the location once it has passed it; `DW_CFA_set_loc` can make it
  come back (`Cfi.SetLocMissesRow`).
* An FDE without language-specific data of its own inherits that of the entry visited before it
  (`EhFrame.StaleLsda`, `EhFrame.CarriedLsda`, with a section in `StaleSection.StaleLsdaFound`).
* The parser of an FDE takes the length of its augmentation data for a number of augmentation
  characters: it finds the instructions if and only if no `L` stands behind that many characters
  and the data ends with the last pointer (`EhFrameRecords.FdeRead`, `EhFrameRecords.LateLsdaMissed`).
  The language-specific data is the last pointer that it sees (`EhFrameSection.OwnInTime`).
* `private_1` holds the start of the handler's function, not its frame: `HANDLER_FRAME` goes to the
  handler's frame alone if and only if the cleanup phase passes no other activation of that function
  before it (`TwoPhase.MarksExactly`, `TwoPhase.RecursionMarked`).
* The personality routine passes `can_handle` its arguments in the wrong order, so `catch (...)`
  catches nothing that has a type (`Personality.CatchAllNeedsNullType`, `Personality.CatchAllMissed`).
* `blockdev_read` and `blockdev_write` never succeed on a transfer that starts inside a block and
  does not reach its end: once that block is fetched, and if there is memory, they run past the caller's
  buffer (`BlockDevice.ReadFrom`, `BlockDevice.WriteFrom`, `BlockDevice.ReadOverruns`).
  A transfer whose block count exceeds 32 bits succeeds short (`BlockDevice.MovedLength`). A write
  that starts inside a block copies the head of that block to the caller's buffer instead of the
  disk (`BlockDevice.WriteExact`).
* `reg_blockdev_instance` reports success for a new instance whether or not it could put it on its
  list: it is registered if and only if `malloc` grants the list node as well
  (`BlockRegistry.Registry.RegisterInstance`). Class number 2 passes the check of all functions
  although there are two classes (`BlockRegistry.Registry.GetClass`).
* The mouse driver takes a byte 0xFA inside a packet for an acknowledgement and drops it
  (`Mouse.Deframes`).
* The clock loses the leap day of 1992 and gives 2100 one (`Rtc.TimeToIntIsGregorian`,
  `Rtc.LeapDay1992Lost`), and the way back does not end in December (`Rtc.IntToTimeInverts`).
* With more than 16 heads or 255 sectors some block is addressed as another, unless the capacity ends
  before it (`Chs.SelectsAllIffAddressable`), and the capacity guard adds in 64 bits, so that block
  numbers just below 2^64 pass it (`Chs.GrantedIsOnDisk`).
* `_mm_malloc` gives out a block that is too small exactly if size plus alignment exceeds 64 bits
  (`AlignedMalloc.Heap.MmMalloc`).

## Model

| member | source | states |
|---|---|---|
| Words.AddOffsetExact | libunwind/include/misc.h:29-50 | the checked addition is exact on unsigned operands and aborts only where the sum would be negative |
| Words.ShlValue | libunwind/src/dwarf4.cpp:473-483 | a left shift multiplies by a power of two modulo 2^64 |
| Words.ShrValue | libunwind/src/dwarf4.cpp:485-495 | a right shift is the quotient by a power of two |
| Words.HalveIntValue | libunwind/src/dwarf4.cpp:497-507 | an arithmetic right shift is the floored quotient of the signed value |
| Leb128.DecodeUleb128 | libunwind/src/dwarf4.cpp:1681-1698 | the shift-and-or loop returns the base-128 value modulo 2^64 and consumes the bytes through the first with a clear top bit |
| Leb128.DecodeSleb128 | libunwind/src/dwarf4.cpp:1656-1679 | the same in two's complement, with the sign extended from the last digit |
| Leb128.ReadSleb128 | libsupc++/src/cxxabi.cpp:12-31 | the personality's reader is the unwinder's truncated to 32 bits |
| Leb128.UlebRoundTrip | libunwind/src/dwarf4.cpp:1681-1698 | decoding the shortest encoding of any 64-bit word gives the word and its length back |
| Leb128.SlebRoundTrip | libunwind/src/dwarf4.cpp:1656-1679 | the same for signed words |
| Registers.RegisterState.Set | libunwind/include/registers_intel_x64.h:95-105 | a set changes one temporary register and no committed one, and aborts past the last |
| Registers.RegisterState.Commit | libunwind/include/registers_intel_x64.h:107-110 | a commit makes the two files equal |
| Registers.RegisterState.CommitCfa | libunwind/include/registers_intel_x64.h:112-116 | the stack pointer becomes the CFA whatever was set for it, and the files are equal |
| Expression.Execute | libunwind/src/dwarf4.cpp:209-1305 | every opcode leaves a stack of 1 to 100 values, or the run ends |
| Expression.ForwardBlockHalts | libunwind/src/dwarf4.cpp:199-206 | without backward branches the machine halts, for any bytes, within end + 1 - p steps |
| Expression.BackwardSkipLoops | libunwind/src/dwarf4.cpp:522-528 | a skip to itself uses up every budget |
| Expression.ParseFuel | libunwind/src/dwarf4.cpp:188-1309 | an expression that ends has the same outcome with any larger budget |
| ExpressionArray.StepInPlace | libunwind/src/dwarf4.cpp:199-1306 | one instruction on the array reads only slots that were written before, stays within the array and does what the model does |
| ExpressionArray.ParseExpressionInPlace | libunwind/src/dwarf4.cpp:188-1309 | the array machine computes the model's result, for all bytes |
| Operators.BinaryMeans | libunwind/src/dwarf4.cpp:395-617 | every operator with two operands computes what it means: integer arithmetic modulo 2^64, products and rounded quotients by powers of two for the shifts and a fault from 64 places on, bits one by one, unsigned comparisons with the lower operand on the left |
| Operators.BitwiseBits | libunwind/src/dwarf4.cpp:395-455 | each bit of the result of and, or and xor is that of the same bits of the operands |
| Operators.ShraSigned | libunwind/src/dwarf4.cpp:497-507 | the signed reading of an arithmetic right shift is the floored signed quotient |
| Operators.ShuffleMoves | libunwind/src/dwarf4.cpp:297-365 | dup, drop, over, pick, swap and rot put every word of the stack where section 2.5.1.3 of DWARF 4 has it, and abort exactly if too few words are there |
| Operators.XderefReads | libunwind/src/dwarf4.cpp:367-383 | xderef replaces the two top words by the word at the upper one, and aborts on a null address or a lonely word |
| Operators.SkipGoes | libunwind/src/dwarf4.cpp:522-528 | skip goes on a signed distance of 16 bits behind itself and leaves the stack alone |
| Operators.BraGoes | libunwind/src/dwarf4.cpp:530-544 | bra takes one word off the stack and goes on there exactly if it is not zero |
| ExpressionCompiler.RunCompiled | libunwind/src/dwarf4.cpp:209-1305 | the compiled opcodes of a tree push its value, which names no function of the machine, leave every lower slot unchanged and fail exactly if the tree has no value |
| ExpressionCompiler.TooDeepFails | libunwind/src/dwarf4.cpp:204-207 | a tree deeper than the stack ends in an error, so the stack bound is exact |
| ExpressionCompiler.ParseBlock | libunwind/src/dwarf4.cpp:188-1309 | a block of any length returns the top of the stack behind exactly the instructions that start at most length - field bytes behind the first, or their failure |
| ExpressionCompiler.WholeBlockRuns | libunwind/src/dwarf4.cpp:197-199 | all instructions of a block run if and only if the last is at least as long as the length field |
| ExpressionCompiler.ParseWholeBlock | libunwind/src/dwarf4.cpp:188-1309 | such a block evaluates to its tree's value if the depth fits the stack, and to an error if not |
| ExpressionCompiler.TreeOnStack | libunwind/src/dwarf4.cpp:204-1305 | the instructions of a tree, run one by one, leave its value on top of an unchanged stack if the depth fits, and fail if not |
| ExpressionCompiler.ParseLongBlock | libunwind/src/dwarf4.cpp:197-199 | a block of 128 to 16383 bytes that ends with a one-byte operator returns the value without it |
| ExpressionCompiler.LongBlockDiffers | libunwind/src/dwarf4.cpp:197-199 | such a block gives a value other than its tree's always if it ends with DW_OP_not, for DW_OP_neg exactly if the operand is neither 0 nor 2^63, and for DW_OP_abs exactly if it lies above 2^63 |
| Cfi.OpcodeMask | libunwind/src/dwarf4.cpp:1387-1393 | the masks with 0xC0 and 0x3F split a byte into opcode and operand |
| Cfi.RunToIsPrefixLookup | libunwind/src/dwarf4.cpp:1620-1643 | where a part of the program runs well and is all of it or leads to a row past the target, the early-stopping loop on the whole program returns the row in front of that one in the fully expanded table, whatever stands behind |
| Cfi.RunToNeedsPrefix | libunwind/src/dwarf4.cpp:1620-1643 | and where the loop goes well there is such a part |
| Cfi.EarlyStopExact | libunwind/src/dwarf4.cpp:1620-1643 | that is the table's row for the target if and only if the table never comes back to it |
| Cfi.EarlyStopRefinesTable | libunwind/src/dwarf4.cpp:1620-1643 | on sorted tables early stopping returns the last row at or below the target |
| Cfi.FittingLocationsAreSorted | libunwind/src/dwarf4.cpp:1397-1445 | without set_loc and without wrap-around every table is sorted |
| Cfi.SetLocMissesRow | libunwind/src/dwarf4.cpp:1397-1445 | a concrete program with set_loc for which the pass misses the table's row |
| Cfi.RestoreMatchesRemember | libunwind/src/dwarf4.cpp:1484-1504 | a matching restore_state gives back the whole row across any nested program, keeps the outer rows and the location reached |
| Cfi.OuterRowsUntouched | libunwind/src/dwarf4.cpp:1484-1504 | rows below the current nesting stay remembered, in order |
| Cfi.RememberDepth | libunwind/src/dwarf4.cpp:1484-1504 | at most ten rows are ever remembered |
| Cfi.DecodedRow | libunwind/src/dwarf4.cpp:1645-1654 | the row of an FDE for an instruction pointer is that of its table |
| CfiProgram.RowDecodes | libunwind/src/dwarf4.cpp:1397-1618 | the machine decodes every encoding of every instruction that changes a row, DW_CFA_register included |
| CfiProgram.StepMeans | libunwind/src/dwarf4.cpp:1372-1618 | where section 6.4.2 of DWARF 4 gives an instruction a meaning, one step on its encoding does what it means, with offsets as integers, if and only if it is not DW_CFA_register, does not redefine a CFA expression, and does not remember an eleventh row |
| CfiProgram.SetLocMeans | libunwind/src/dwarf4.cpp:1424-1428 | set_loc reaches the location meant if and only if the function starts at address zero |
| CfiProgram.TableMeans | libunwind/src/dwarf4.cpp:1620-1643 | the table of an assembled program is the program's table |
| CfiProgram.LookupMeans | libunwind/src/dwarf4.cpp:1620-1643 | the early-stopping loop finds the program's entry for every target, and the program may end behind an entry past the target, with anything behind it |
| CfiProgram.DecodedFrame | libunwind/src/dwarf4.cpp:1645-1654 | a CIE and an FDE that hold assembled programs, the FDE's at least up to an entry past the instruction pointer, give the frame that the programs mean for the instruction pointer |
| CfiProgram.CfaStaysExpression | libunwind/src/dwarf4.cpp:1506-1529 | redefining the CFA by register or offset keeps its kind, so an expression stays one |
| CfiProgram.InRegisterUnreachable | libunwind/src/dwarf4.cpp:1476-1482 | no program gives any register the rule that it is saved in another register |
| CallerFrame.UnwindFindsCaller | libunwind/src/dwarf4.cpp:1700-1723 | unwinding by a row that stands for a frame gives the caller's registers where the frame says they are |
| CallerFrame.ProgramsUnwind | libunwind/src/dwarf4.cpp:1645-1723 | where a CIE and an FDE hold such programs, a successful unwind gives the caller's registers of the frame that the programs mean for the instruction pointer |
| CfiMachine.ParseInstruction | libunwind/src/dwarf4.cpp:1372-1618 | one instruction on the array of remembered rows does what the model does |
| CfiMachine.ParseInstructions | libunwind/src/dwarf4.cpp:1620-1643 | the loop computes the model's row |
| CfiMachine.DecodeRow | libunwind/src/dwarf4.cpp:1645-1654 | both passes, CIE then FDE, compute the model's row |
| Unwind.UnwindIsSimultaneous | libunwind/src/dwarf4.cpp:1700-1723 | every defined rule is evaluated on the old registers, undefined ones keep their value, rsp is the CFA plus the argument size; it fails exactly if a rule does |
| Unwind.OrderIrrelevant | libunwind/src/dwarf4.cpp:1708-1720 | any order of the registers gives the same file |
| Unwind.SameValueKeeps | libunwind/src/dwarf4.cpp:1340-1342 | in the row of any program same_value keeps the register it stands for |
| Unwind.RegisterValue | libunwind/src/dwarf4.cpp:1330-1370 | the rule evaluated on the committed registers |
| Unwind.CfaValue | libunwind/src/dwarf4.cpp:1311-1328 | the CFA evaluated on the committed registers |
| Unwind.UnwindFrame | libunwind/src/dwarf4.cpp:1700-1723 | in place: committed and temporary files are equal before and after, and a failure has committed nothing |
| Unwind.UnwindFuel | libunwind/src/dwarf4.cpp:1700-1723 | the result does not depend on the budget |
| EhFrame.NoCieParsed | libunwind/src/eh_frame.cpp:256-268 | a record that is no CIE leaves every field but the extent zero |
| EhFrame.ParseExtent | libunwind/src/eh_frame.cpp:140-207 | a record that is accepted lies inside the section and ends behind its start |
| EhFrame.WalkIncreases | libunwind/src/eh_frame.cpp:121-138 | however far the walk gets, it meets non-overlapping records in increasing order inside the section |
| EhFrame.FindFrom | libunwind/src/eh_frame.cpp:418-432 | an FDE that is found is no CIE and covers the pc |
| EhFrame.FindIsFirstAnswer | libunwind/src/eh_frame.cpp:409-445 | find_fde returns r if and only if the walk comes to r as the first entry whose pc range (begin, begin + range] holds the pc, or to its end without one; what lies behind is never read |
| EhFrame.StaleLsda | libunwind/src/eh_frame.cpp:348-407 | an FDE met by the walk equals its fresh parse if and only if it has language-specific data of its own or none is left over |
| EhFrame.CarriedLsda | libunwind/src/eh_frame.cpp:379-402 | over any walk from the start of the section each entry carries its own data or that of the entry before |
| StaleSection.StaleLsdaFound | libunwind/src/eh_frame.cpp:379-402 | a section in which find_fde gives an FDE without data the data of another |
| EhFrameRecords.PointerRoundTrip | libunwind/src/eh_frame.cpp:13-101 | a pointer in any supported encoding reads back as its target |
| EhFrameRecords.PointerRefused | libunwind/src/eh_frame.cpp:13-101 | an encoding outside the two bases and nine formats aborts; 0xFF takes no bytes and gives null; fixed unsigned words never abort |
| EhFrameRecords.CieRead | libunwind/src/eh_frame.cpp:256-314 | a CIE reads back as the fields it was written from, with augmentations in any order |
| EhFrameRecords.FdeRead | libunwind/src/eh_frame.cpp:348-407 | an FDE of the layout of section 10.6 of the LSB reads back as its range, and its language-specific data as the last pointer among the first `length` characters; its instructions are found if and only if no L stands behind these characters and the data ends with the last pointer |
| EhFrameRecords.LateLsdaMissed | libunwind/src/eh_frame.cpp:379-406 | an FDE of a CIE with "zRL" whose one-byte pointer is taken for its first instruction |
| EhFrameSection.SectionWalk | libunwind/src/eh_frame.cpp:121-207 | walking a serialised list of records, in either length form, with or without terminator, visits exactly these records |
| EhFrameSection.SerialisedLookup | libunwind/src/eh_frame.cpp:348-445 | on a section written from a list of CIEs and of FDEs that point back to them, find_fde returns the first FDE whose range holds the pc, with its range, its CIE and the data of the last FDE up to it of whose pointers the parser sees any; with its instructions if and only if none of its Ls is late and its data ends with its last pointer; and the null entry if there is no such FDE |
| EhFrameSection.OwnInTime | libunwind/src/eh_frame.cpp:379-402 | of the pointers of an FDE the parser sees the first ones, and all of them, so that its data is its last pointer, if and only if no L stands behind the first `length` characters |
| EhFrameObjects.ReadPointer | libunwind/src/eh_frame.cpp:13-101 | decode_pointer reads the model's pointer and moves to the model's address |
| EhFrameObjects.CommonEntry.Parse | libunwind/src/eh_frame.cpp:140-207 | the fields hold the parsed extent |
| EhFrameObjects.CiEntry.Parse | libunwind/src/eh_frame.cpp:256-314 | the fields of a fresh CIE hold the parsed CIE, through the loops over its strings |
| EhFrameObjects.FdEntry.Parse | libunwind/src/eh_frame.cpp:348-407 | the fields hold the parse that follows the object's earlier contents |
| EhFrameObjects.FdEntry.Advance | libunwind/src/eh_frame.cpp:121-138 | operator++ moves the object to the next entry of the walk |
| EhFrameObjects.Find | libunwind/src/eh_frame.cpp:409-445 | the loop over one object computes find_fde |
| Personality.ScanFirst | libsupc++/src/cxxabi.cpp:329-369 | the routine returns at the first place in scan order that lets it, and continues exactly if none does |
| Personality.SearchFindsHandler | libsupc++/src/cxxabi.cpp:329-369 | a search answers HANDLER_FOUND exactly if some typed action on a covering call site with a landing pad passes can_handle |
| Personality.SearchIsExact | libsupc++/src/cxxabi.cpp:329-369 | on every finite table the search ends and answers so |
| Personality.CleanupFollowsSearch | libsupc++/src/cxxabi.cpp:329-369 | where the search finds a handler the cleanup call installs at that action or, for a cleanup only, at an earlier one |
| Personality.CallsAgree | libsupc++/src/cxxabi.cpp:309-370 | the two calls on one frame: the second fails only where the first does, never searches, and installs wherever the first found a handler |
| Personality.CatchAllNeedsNullType | libsupc++/src/cxxabi.cpp:210-223 | catch (...) accepts exactly a null thrown type |
| Personality.CatchAllMissed | libsupc++/src/cxxabi.cpp:354-364 | a concrete table whose catch (...) is passed by |
| Personality.ScanFuel | libsupc++/src/cxxabi.cpp:341-343 | the answer does not depend on the budget |
| LsdaTables.SearchAnswers | libsupc++/src/cxxabi.cpp:309-370 | on an area written from lists of call sites, action chains and types, the search answers HANDLER_FOUND exactly if a chain of a site around the throwing instruction, with a landing pad, lists a type that is the thrown one, or any type if the thrown one is null; type i is the i-th from the end |
| LsdaTables.CleanupAnswers | libsupc++/src/cxxabi.cpp:309-370 | the cleanup call installs the function's start plus the landing pad of the first such handler or cleanup in the order of the lists, with its listed index, and continues exactly if there is none |
| LsdaTables.SecondTypeCaught | libsupc++/src/cxxabi.cpp:200-207 | concrete tables with two types, of which the search takes the second from the end |
| Context.UnwindContext.SetGr | libunwind/src/ia64_cxx_abi.cpp:187-191 | the register is committed and the files stay equal |
| Context.UnwindContext.SetIp | libunwind/src/ia64_cxx_abi.cpp:198-202 | the instruction pointer is committed and the files stay equal |
| Context.UnwindContext.RunLandingPad | libsupc++/src/cxxabi.cpp:225-240 | register 0 holds the exception, register 1 the type index, rip the landing pad, and all others are kept |
| Context.LsdaCursor.NextCallSite | libsupc++/src/cxxabi.cpp:130-145 | the cursor reads the next call site, or None at the end of the table |
| Context.LsdaCursor.LoadAction | libsupc++/src/cxxabi.cpp:167-198 | the current action is the one at the address |
| Context.GxxPersonality | libsupc++/src/cxxabi.cpp:309-370 | the cursor loops give the model's verdict, and change registers only to install |
| TwoPhase.PhasesAgree | libunwind/src/ia64_cxx_abi.cpp:45-158 | if phase 1 finds a handler, phase 2 revisits the identical frames, passes HANDLER_FRAME at the handler's and every other activation of its function, installs there or earlier, never unwinds past it and never meets the end of the stack |
| TwoPhase.MarksExactly | libunwind/src/ia64_cxx_abi.cpp:83-126 | phase 2 passes HANDLER_FRAME to the handler's frame alone if and only if it passes no other activation of the handler's function before |
| TwoPhase.RecursionMarked | libunwind/src/ia64_cxx_abi.cpp:83-126 | a function that has called itself gets HANDLER_FRAME in its inner activation, which has no handler |
| TwoPhase.CleanupRetraces | libunwind/src/ia64_cxx_abi.cpp:83-126 | the same for any two walks whose turns agree, by induction over the frames |
| TwoPhase.SearchStopsAtHandler | libunwind/src/ia64_cxx_abi.cpp:45-81 | the search climbs from caller to caller and stops at the first frame with a handler |
| TwoPhase.PersonalityAgrees | libunwind/src/ia64_cxx_abi.cpp:20-33 | the personality routine, present or not, meets what the agreement asks |
| TwoPhase.ResumeReachesHandler | libunwind/src/ia64_cxx_abi.cpp:163-172 | after a cleanup, a resume whose frames let the unwind continue up to a frame of the search, with the registers that the frames that exist restore from one another as the search saw them, and any values in the others, installs again, no further than the handler |
| TwoPhase.AllRegistersRestored | libunwind/src/ia64_cxx_abi.cpp:163-172 | the frames restore all registers together |
| Restoring.RowsRestore | libunwind/src/dwarf4.cpp:1700-1723 | the frames restore any set of registers with rip whose rules and whose CFA, in every row of an existing FDE, read no register outside the set |
| Restoring.OrdinaryRestores | libunwind/src/dwarf4.cpp:1700-1723 | where each CFA is an offset from a callee-saved register and registers are saved on the stack, the frames restore rbx, rbp, rsp, r12 to r15 and rip, and rax need not be the same |
| Restoring.TreeReads | libunwind/src/dwarf4.cpp:188-1309 | an expression block of a tree that names only registers of a set gives the same value on files that agree on the set |
| Restoring.KeptFrameReturns | libunwind/src/dwarf4.cpp:1700-1723 | two register files with the same CFA and the kept registers of their caller in the same places return to callers with the same kept registers |
| Restoring.ResumeAfterCleanup | libunwind/src/ia64_cxx_abi.cpp:163-172 | where a landing pad has kept its frame, whatever else it did to the registers, and no further cleanup covers the place it resumes from, the resume installs again, in a frame behind it and no further than the handler |
| TwoPhase.RaiseResumesIfFound | libunwind/src/ia64_cxx_abi.cpp:131-161 | a throw returns END_OF_STACK exactly if no handler was found; otherwise it resumes in the frame of the last call of the cleanup phase, with the exception in register 0, the type index of that call in register 1, its landing pad in rip and every other register as the frame has it |
| TwoPhase.RaiseFuel | libunwind/src/ia64_cxx_abi.cpp:131-161 | what becomes of a throw does not depend on the budgets |
| Throwing.RoutineAsked | libunwind/src/ia64_cxx_abi.cpp:20-33 | where the personality pointer and the word there are not zero, the routine is asked with pc_begin, ip - 1 and the thrown type on the FDE's area; where either is zero the unwind continues |
| Throwing.SearchComesTo | libunwind/src/ia64_cxx_abi.cpp:45-81 | wherever phase 1 ends, it is at the first frame, from the caller of _Unwind_RaiseException on and by find_fde and unwind, that has a routine and whose table catches, or behind the last frame if none does |
| Throwing.SearchMustComeTo | libunwind/src/ia64_cxx_abi.cpp:45-81 | and it does end there if the frames up to it have no routine or a finite table |
| Throwing.ThrowLands | libunwind/src/ia64_cxx_abi.cpp:45-161 | a throw through frames whose tables are written from lists lands, if one lists a handler of its type, in the first frame that lists a handler or a cleanup around its throwing instruction, at the first landing pad listed there, with the exception, the listed index and the frame's registers; if none does, it returns END_OF_STACK |
| RaiseException.FindAndStoreFde | libunwind/src/ia64_cxx_abi.cpp:35-43 | the context's FDE is that of its instruction pointer |
| RaiseException.CallPersonality | libunwind/src/ia64_cxx_abi.cpp:20-33 | a non-null routine behind a non-null pointer is run on the FDE's area with pc_begin, ip - 1 and the thrown type, and otherwise the unwind continues; the verdict and the registers are the model's, and the call is recorded |
| RaiseException.PrivatePhase1 | libunwind/src/ia64_cxx_abi.cpp:45-81 | the loop makes the calls of the search phase and stores private_1 exactly if it finds a handler |
| RaiseException.PrivatePhase2 | libunwind/src/ia64_cxx_abi.cpp:83-126 | the loop makes the calls of the cleanup phase and resumes with the model's registers |
| RaiseException.Raise | libunwind/src/ia64_cxx_abi.cpp:131-161 | the whole function computes the model's result from the stored registers |
| Disk.CopiedPatch | kernel/src/drivers/blockdev.c:505-528 | a block read, overwritten in front and written back changes just those bytes of the disk |
| BlockDevice.FitsMeansAhead | kernel/src/drivers/blockdev.c:337-373 | the block count is negative, and the head longer than the request, exactly if the transfer ends inside its first block |
| BlockDevice.MovedLength | kernel/src/drivers/blockdev.c:372-373 | a transfer moves the requested length exactly if its blocks are counted in 32 bits, and else less |
| BlockDevice.ReadBlocks | kernel/src/drivers/blockdev.c:375-389 | the loop over short transfers moves consecutive blocks and ends; it fails exactly if the disk refuses, and then releases the instance |
| BlockDevice.ReadFrom | kernel/src/drivers/blockdev.c:335-406 | at every exit the bytes moved are those of the disk from the offset on, in order, and the instance is released; the call fails exactly if malloc or the disk refuses; if it fits it stays in the buffer; if not it never succeeds, and the head, longer than the buffer, is moved exactly if its block is fetched and memory has room for it, and nothing otherwise: after a refusal, or out of bounds once malloc and the disk were asked |
| BlockDevice.WriteBlocks | kernel/src/drivers/blockdev.c:499-515 | the same towards the disk |
| BlockDevice.WriteFrom | kernel/src/drivers/blockdev.c:458-540 | at every exit the disk holds the source's bytes behind the head and its own everywhere else; the call fails exactly if malloc or the disk refuses; the head goes to the caller's memory exactly if its block is fetched and memory has room for it, and nothing moves otherwise; if the transfer does not fit, the head is longer than the buffer and the call never succeeds |
| BlockDevice.WriteExact | kernel/src/drivers/blockdev.c:409-541 | a successful write puts the caller's bytes on the disk if and only if the head was there already; an aligned one is exact and leaves the buffer alone |
| BlockDevice.UnalignedWriteLosesHead | kernel/src/drivers/blockdev.c:471 | a concrete write that loses its first byte |
| BlockDevice.ReadOverruns | kernel/src/drivers/blockdev.c:337-373 | once its block is fetched and if there is memory, every read that ends inside its first block overwrites the bytes behind the buffer up to the end of the block |
| BlockDevice.WriteOverruns | kernel/src/drivers/blockdev.c:458-497 | so does every such write, in the caller's memory |
| BlockDevice.ReadInsideBlockOverruns | kernel/src/drivers/blockdev.c:337-373 | a concrete read of one byte, whose only result once the block is fetched has two more bytes overwritten |
| BlockDevice.WrittenIsRead | kernel/src/drivers/blockdev.c:287-541 | reading the range of an aligned write gives back what was written, under any schedules |
| BlockRegistry.BlockClass.GetInstance | kernel/src/drivers/blockdev.c:66-83 | the instance with the minor is referenced once more, and no other |
| BlockRegistry.BlockClass.Detach | kernel/src/drivers/blockdev.c:262-284 | busy exactly if referenced elsewhere, inconsistent exactly if not on the list, and otherwise taken off |
| BlockRegistry.BlockClass.Remove | kernel/src/drivers/blockdev.c:254-284 | from a valid class the instance is removed exactly if present, and all others stay; neither Busy nor the consistency error is reached |
| BlockRegistry.Registry.GetClass | kernel/src/drivers/blockdev.c:168-180 | the classes below 2 are found if and only if registered; number 2, and no other, leaves the table |
| BlockRegistry.BlockClass.Add | kernel/src/drivers/blockdev.c:182-233 | a known minor counts as registered; a new one fails exactly if malloc refuses the instance, and is put on the list exactly if malloc grants the node too |
| BlockRegistry.Registry.RegisterClass | kernel/src/drivers/blockdev.c:90-129 | with a good and new number it succeeds exactly if malloc grants the class, and adds one empty class; anything else changes nothing |
| BlockRegistry.Registry.RegisterInstance | kernel/src/drivers/blockdev.c:158-233 | minors stay distinct; with good arguments and a new minor it fails exactly if malloc refuses the instance, and a success has put the instance at the end of the list exactly if malloc granted the node |
| BlockRegistry.Registry.UnregisterInstance | kernel/src/drivers/blockdev.c:235-285 | succeeds exactly if the instance is registered, and then that one instance is gone from the list of its class; all other lists stay, and on a failure all |
| BlockRegistry.Registry.Read | kernel/src/drivers/blockdev.c:287-407 | fails on a registered instance exactly if malloc or the disk refuses; success only on transfers that fit, the buffer then holds the disk's bytes and nothing else changed; no reference is left behind |
| BlockRegistry.Registry.Write | kernel/src/drivers/blockdev.c:409-541 | the counterpart for writes; every disk but that of the instance named keeps its bytes |
| BlockRegistry.Run | kernel/src/drivers/blockdev.c:66-541 | over every run of calls with failing disks and allocators the registry stays valid, no call is busy and none finds it inconsistent |
| Mouse.Deframes | kernel/src/drivers/mouse_ps2.c:539-587 | packets between junk are delivered exactly as sent if and only if none holds a byte 0xFA |
| Mouse.StaysWellFramed | kernel/src/drivers/mouse_ps2.c:562-587 | on any bytes a pending packet began with bit 3 set, so the check of always_one never rejects one |
| Mouse.ButtonsAlternate | kernel/src/drivers/mouse_ps2.c:278-430 | the press and release events of each button alternate, in step with mouse_buttons |
| Mouse.ButtonsShown | kernel/src/drivers/mouse_ps2.c:276-430 | behind any packets exactly the buttons are down whose bit is set in the last: left, right and middle are bits 0, 1 and 2 of byte 0, the fourth and fifth bits 4 and 5 of byte 3 of a five-button mouse |
| Mouse.PositionIsSum | kernel/src/drivers/mouse_ps2.c:432-453 | the position is the 32-bit sum of all movements delivered |
| Mouse.ScrollIsSum | kernel/src/drivers/mouse_ps2.c:455-534 | the scroll counters are the 32-bit sums of what byte 3 says: a signed byte, or one step for the codes 1, 2, 14 and 15 |
| Mouse.HandlersKnow | kernel/src/drivers/mouse_ps2.c:432-534 | from the movement and scroll events alone the handlers know the position and the counters, and no movement is reported that is none |
| Mouse.Driver.ProcessPacket | kernel/src/drivers/mouse_ps2.c:253-537 | buttons, position, wheels and events change as the model says |
| Mouse.Driver.Interrupt | kernel/src/drivers/mouse_ps2.c:539-593 | after every interrupt the state is what the delivered packets make of it |
| Rtc.SecondsCountTicks | kernel/src/cmos/cmos_rtc.c:984-1007 | the reference: zero at the epoch, and one more for each tick of the Gregorian calendar |
| Rtc.SecondsIncrease | kernel/src/cmos/cmos_rtc.c:984-1007 | strictly increasing in calendar order |
| Rtc.YearsToSecLoop | kernel/src/cmos/cmos_rtc.c:905-932 | the loop counts the days of the years since 1970, in 32 bits |
| Rtc.MonthsToSecSwitch | kernel/src/cmos/cmos_rtc.c:934-982 | the fallthrough adds up the months, by the leap test on eight bits |
| Rtc.TimeToIntIsGregorian | kernel/src/cmos/cmos_rtc.c:984-1007 | until 2105 the result is the Gregorian seconds if and only if the time lies before March or the 8-bit year is right |
| Rtc.LeapSeenUntil2105 | kernel/src/cmos/cmos_rtc.c:967-971 | from 1970 to 2105 the 8-bit year is wrong in 1992 and 2100 alone |
| Rtc.LeapDay1992Lost | kernel/src/cmos/cmos_rtc.c:967-971 | two dates of 1992 with the same number |
| Rtc.RtcTimeToInt | kernel/src/cmos/cmos_rtc.c:984-1007 | the sum in 32-bit steps is the model's |
| Rtc.RtcIntToTime | kernel/src/cmos/cmos_rtc.c:1009-1049 | the two loops compute the model's time |
| Rtc.IntToTimeInverts | kernel/src/cmos/cmos_rtc.c:1009-1049 | until 2105 the inverse gives the time back exactly before December, not at the start of a month other than the epoch, and on 29 February 1992 at midnight only; it does not end exactly at new year and in December, except on 31 December 2100 |
| Chs.PlaceOfBlock | kernel/src/drivers/ide.c:1376-1382 | each block of the disk has a place on the disk whose number it is |
| Chs.BlockOfPlace | kernel/src/drivers/ide.c:1376-1382 | each place on the disk is that of its number |
| Chs.RegistersSelectBlock | kernel/src/drivers/ide.c:1376-1394 | the registers select a block if and only if its head and its sector fit into them |
| Chs.SelectsAllIffAddressable | kernel/src/drivers/ide.c:1376-1394 | they select every block below the capacity if and only if there are at most 16 heads and 255 sectors, or the capacity ends in front of the first block that does not fit |
| Chs.GrantedIsOnDisk | kernel/src/drivers/ide.c:1356-1368 | a request is cut to 256 sectors and accepted exactly if they end within the capacity or their sum wraps to a number within it; in the first case all of them are on the disk, in the second none is |
| AlignedMalloc.TestAlignment | libsimd/src/mm_alloc.c:33-36 | the bit test accepts exactly zero and the powers of two |
| AlignedMalloc.RoundDown | libsimd/src/mm_alloc.c:55 | the mask rounds down to a multiple |
| AlignedMalloc.MultipleAbove | libsimd/src/mm_alloc.c:55 | the aligned address leaves room for the saved pointer in front and for the user's bytes behind |
| AlignedMalloc.HeaderSurvives | libsimd/src/mm_alloc.c:57 | whatever the user stores into the block, the saved pointer stays |
| AlignedMalloc.Heap.MmMalloc | libsimd/src/mm_alloc.c:28-60 | null exactly for a bad alignment, size zero or a refusal by malloc, if size + alignment does not wrap; then an aligned address inside one new block that holds its own address in front, and every earlier address stays good; if it wraps, the block is too small |
| AlignedMalloc.Heap.MmFree | libsimd/src/mm_alloc.c:62-68 | exactly the block from malloc is freed, and anything else is a fault |
| AlignedMalloc.Heap.AllocateFillFree | libsimd/src/mm_alloc.c:28-68 | a block that is allocated, filled with anything and freed leaves malloc's blocks and all earlier addresses as they were |

## Left out

- Assembly that stores and loads registers, and `__builtin_eh_return_data_regno`: the registers are a parameter, `resume` is the register file it would load, and the two register numbers are 0 and 1.
- The pointer layout of `__cxa_exception`: the thrown type and the exception's address are parameters, and `private_1` is a field outside the modelled memory.
- Personality routines other than `__gxx_personality_v0`: every non-null personality pointer is taken for it.
- The bounds of the `.eh_frame` section (`libunwind/src/eh_framelist.cpp`): the section is a parameter, and there is one module, as in the source.
- Type matching by inheritance (`libsupc++` upcasts) is not used by the personality routine and not modelled.
- Addresses are unbounded integers except where the source computes on them as words; a cursor that would run past 2^64 reads unmapped memory.
- CfiProgram.TableMeans: programs in which every step does what it means (the condition of `CfiProgram.StepMeans`) and which do not use `DW_CFA_set_loc`.
- EhFrameRecords.FdeRead: pointers of the encoding `DW_EH_PE_omit`, which take no bytes, and augmentation characters other than `z`, `L`, `P` and `R`, on which the parser aborts.
- TwoPhase.ResumeReachesHandler: that the frames restore certain registers is a hypothesis about their call-frame information, which `Restoring.RowsRestore` reads off their rows.
- Restoring.ResumeAfterCleanup: what a landing pad does before it resumes is compiled code; that it keeps its frame is a hypothesis about it.
- TwoPhase.RecursionMarked: the two activations are those of a walker; no memory image of such a process is given.
- EhFrameObjects.CiEntry: the fields of a CIE besides its extent are kept in one value.
- BlockDevice.ReadFrom: a failing disk call leaves memory alone, and a disk has fewer than 2^32 - 1 blocks.
- BlockRegistry.Registry.RegisterInstance: the file node and its mount are not modelled, nor is `list_create` running out of memory.
- BlockRegistry.Registry.Read: the buffer lies in memory of at most 2^63 bytes, so that offset + len does not wrap.
- Mouse.Driver: the handlers are taken to be registered; the static type of the mouse does not change; port input is the argument.
- Rtc.IntToTimeInverts: beyond 2105 the 32-bit seconds wrap.
- Chs.GrantedIsOnDisk: geometries of zero sectors, on which the division of the block number has no meaning.
- The transfer loop, the status registers and the cache flush of `ide.c`: what they do is decided by the hardware.
- Port I/O, interrupts, delays and logging: a parameter, or without effect on what is proved.
- The other subsystems of the kernel (memory management, processes, file systems, cryptography, graphics, the remaining drivers) and the libc: nothing modelled here depends on what they compute, apart from `malloc` and the list of instances, whose results are parameters.
