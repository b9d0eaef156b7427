/**
 What unwinding gives for a frame that a call-frame program describes: the caller's registers,
 as the meanings of module CfiProgram say where they are found.
 */
module CallerFrame {
  import opened Words
  import opened Memory
  import opened Registers
  import opened Expression
  import opened EhFrame
  import opened Cfi
  import opened CfiProgram
  import opened Unwind

  /** An offset of the program, applied to an address, stays an address. */
  predicate Reaches(base: u64, offset: int) {
    IsSigned64(offset) && 0 <= base + offset < TWO64
  }

  /** An expression block somewhere in memory evaluates to x, started with this word on its stack. */
  ghost predicate Computes(m: Mem, block: seq<byte>, start: u64, regs: RegisterFile, fuel: nat, x: u64) {
    exists p: u64 :: Holds(m, p, Block(block)) && ParseExpression(m, p, start, regs, fuel) == Ok(x)
  }

  /** The caller's value x of register i, as the frame says; offsets that leave the address space say nothing. */
  ghost predicate IsCallers(m: Mem, f: Frame, regs: RegisterFile, cfa: u64, fuel: nat, i: RegisterIndex, x: u64) {
    if i !in f.rules then x == regs[i]
    else
      match f.rules[i]
      case Same => x == regs[i]
      case SavedAt(offset) => Reaches(cfa, offset) ==> Read64(m, cfa + offset) == Ok(x)
      case ValueIs(offset) => Reaches(cfa, offset) ==> x == cfa + offset
      case HeldIn(other) => Get(regs, other) == Ok(x)
      case SavedBy(block) => exists at: u64 :: Computes(m, block, cfa, regs, fuel, at) && Read64(m, at) == Ok(x)
      case ComputedBy(block) => Computes(m, block, cfa, regs, fuel, x)
  }

  /** All registers but the stack pointer, whose value is the CFA plus the argument size. */
  ghost predicate IsCaller(m: Mem, f: Frame, regs: RegisterFile, cfa: u64, fuel: nat, caller: RegisterFile) {
    && caller[7] == Wrap(cfa + f.argSize)
    && forall i: RegisterIndex {:trigger IsCallers(m, f, regs, cfa, fuel, i, caller[i])} | i != 7 ::
         IsCallers(m, f, regs, cfa, fuel, i, caller[i])
  }

  ghost predicate IsCfaOf(m: Mem, f: Frame, regs: RegisterFile, fuel: nat, cfa: u64) {
    match f.cfa
    case AtRegister(reg, offset) => reg < 17 && (Reaches(regs[reg], offset) ==> cfa == regs[reg] + offset)
    case ByExpression(block) => Computes(m, block, 0, regs, fuel, cfa)
  }

  lemma {:induction false} CfaFound(m: Mem, row: Row, f: Frame, regs: RegisterFile, fuel: nat, cfa: u64)
    requires IsFrame(m, row, f) && DecodeCfa(m, row, regs, fuel) == Ok(cfa)
    ensures IsCfaOf(m, f, regs, fuel, cfa)
  {
    if f.cfa.AtRegister? && Reaches(regs[f.cfa.reg], f.cfa.offset) {
      AddOffsetReaches(regs[f.cfa.reg], f.cfa.offset);
    }
  }

  lemma {:induction false} RegisterFound(m: Mem, row: Row, f: Frame, regs: RegisterFile, cfa: u64, fuel: nat,
                                         i: RegisterIndex)
    requires IsFrame(m, row, f) && Evaluates(RowValues(m, row, cfa, regs, fuel), i)
    ensures IsCallers(m, f, regs, cfa, fuel, i, NewValue(RowValues(m, row, cfa, regs, fuel), regs, i))
  {
    assert IsRule(m, row.rules[i], i, f);
    if i in f.rules {
      match f.rules[i]
      case SavedAt(offset) => if Reaches(cfa, offset) { AddOffsetReaches(cfa, offset); }
      case ValueIs(offset) => if Reaches(cfa, offset) { AddOffsetReaches(cfa, offset); }
      case _ =>
    }
  }

  /**
   From program to registers: where the machine's row for the instruction pointer stands for a
   frame, a successful unwind gives the caller's registers of that frame, and the stack pointer
   is the CFA plus the argument size.
   */
  lemma {:induction false} UnwindFindsCaller(m: Mem, fde: Fde, regs: RegisterFile, fuel: nat, row: Row, f: Frame,
                                             caller: RegisterFile)
    returns (cfa: u64)
    requires DecodeCfi(m, fde, regs[RIP]) == Ok(row) && IsFrame(m, row, f)
    requires UnwindRegisters(m, fde, regs, fuel) == Ok(caller)
    ensures IsCfaOf(m, f, regs, fuel, cfa) && IsCaller(m, f, regs, cfa, fuel, caller)
  {
    cfa := UnwindValues(m, fde, regs, fuel, row, caller);
    CfaFound(m, row, f, regs, fuel, cfa);
    RegistersFound(m, row, f, regs, cfa, fuel, caller);
  }

  lemma {:induction false} UnwindValues(m: Mem, fde: Fde, regs: RegisterFile, fuel: nat, row: Row, caller: RegisterFile)
    returns (cfa: u64)
    requires DecodeCfi(m, fde, regs[RIP]) == Ok(row) && UnwindRegisters(m, fde, regs, fuel) == Ok(caller)
    ensures DecodeCfa(m, row, regs, fuel) == Ok(cfa) && caller[RSP] == Wrap(cfa + row.argSize)
    ensures var values := RowValues(m, row, cfa, regs, fuel);
            forall i: RegisterIndex :: Evaluates(values, i) && (i != RSP ==> caller[i] == NewValue(values, regs, i))
  {
    cfa := DecodeCfa(m, row, regs, fuel).value;
    UnwindIsSimultaneous(m, fde, regs, fuel, row, cfa);
  }

  lemma {:induction false} RegistersFound(m: Mem, row: Row, f: Frame, regs: RegisterFile, cfa: u64, fuel: nat,
                                          caller: RegisterFile)
    requires IsFrame(m, row, f) && caller[RSP] == Wrap(cfa + row.argSize)
    requires var values := RowValues(m, row, cfa, regs, fuel);
             forall i: RegisterIndex :: Evaluates(values, i) && (i != RSP ==> caller[i] == NewValue(values, regs, i))
    ensures IsCaller(m, f, regs, cfa, fuel, caller)
  {
    forall i: RegisterIndex | i != RSP
      ensures IsCallers(m, f, regs, cfa, fuel, i, caller[i])
    {
      RegisterFound(m, row, f, regs, cfa, fuel, i);
    }
  }

  /**
   From assembled programs to the caller: where a CIE and an FDE hold programs, a successful unwind
   gives the caller's registers of the frame that the programs mean for the instruction pointer.
   */
  lemma {:induction false} ProgramsUnwind(m: Mem, fde: Fde, regs: RegisterFile, fuel: nat, factors: Factors,
                                          common: seq<Instruction>, own: seq<Instruction>, entries: seq<Entry>,
                                          caller: RegisterFile)
    returns (k: nat, cfa: u64)
    requires Describes(m, fde, regs[RIP], factors, common, own, entries)
    requires UnwindRegisters(m, fde, regs, fuel) == Ok(caller)
    ensures IsEntryAt(fde, regs[RIP], entries, k)
    ensures IsCfaOf(m, entries[k].frame, regs, fuel, cfa) && IsCaller(m, entries[k].frame, regs, cfa, fuel, caller)
  {
    var row;
    row, k := DecodedFrame(m, fde, regs[RIP], factors, common, own, entries);
    cfa := UnwindFindsCaller(m, fde, regs, fuel, row, entries[k].frame, caller);
  }
}
