/**
 Which registers the frames of a process restore, read off the rows of their call-frame programs,
 and what a landing pad has to keep so that a resumed walk meets the frames of the search.
 */
module Restoring {
  import opened Words
  import opened Memory
  import opened Registers
  import opened Expression
  import opened EhFrame
  import opened Cfi
  import opened Unwind
  import opened Personality
  import opened TwoPhase
  import ExpressionCompiler

  /** The registers that a function of the System V ABI preserves for its caller, rsp and rip. */
  const CALLEE_SAVED: set<nat> := {3, 6, 7, 12, 13, 14, 15, 16}

  /////////////////////////////////////////////////////////////////////////////
  // What a row reads
  /////////////////////////////////////////////////////////////////////////////

  /** The expression at p reads no register outside `kept`. */
  ghost predicate BlockReads(m: Mem, steps: nat, kept: set<nat>, p: int) {
    forall start: u64, a, b | SameOn(kept, a, b) ::
      ParseExpression(m, p, start, a, steps) == ParseExpression(m, p, start, b, steps)
  }

  /** The rule of register i reads no register outside `kept`, if register i is itself kept. */
  ghost predicate RuleReads(m: Mem, steps: nat, kept: set<nat>, rule: RegisterRule, i: nat) {
    match rule.rule
    case SameValue => i in kept ==> rule.index in kept
    case InRegister => i in kept ==> rule.value in kept
    case InExpression => BlockReads(m, steps, kept, rule.value)
    case ValExpression => BlockReads(m, steps, kept, rule.value)
    case _ => true
  }

  ghost predicate CfaReads(m: Mem, steps: nat, kept: set<nat>, cfa: Cfa) {
    if cfa.isExpression then BlockReads(m, steps, kept, cfa.value) else cfa.value in kept
  }

  ghost predicate RowReads(m: Mem, steps: nat, kept: set<nat>, row: Row) {
    && CfaReads(m, steps, kept, row.cfa)
    && forall i: RegisterIndex :: RuleReads(m, steps, kept, row.rules[i], i)
  }

  lemma {:induction false} CfaSame(m: Mem, steps: nat, kept: set<nat>, row: Row, a: RegisterFile, b: RegisterFile)
    requires CfaReads(m, steps, kept, row.cfa) && SameOn(kept, a, b)
    ensures DecodeCfa(m, row, a, steps) == DecodeCfa(m, row, b, steps)
  {
  }

  /** The rule of register i, on files that agree on `kept`. */
  predicate RuleSame(kept: set<nat>, a: Outcome<u64>, b: Outcome<u64>, i: nat) {
    a.Ok? ==> b.Ok? && (i in kept ==> a == b)
  }

  lemma {:induction false} RuleDecodes(m: Mem, steps: nat, kept: set<nat>, rule: RegisterRule, i: nat, cfa: u64,
                                       a: RegisterFile, b: RegisterFile)
    requires RuleReads(m, steps, kept, rule, i) && SameOn(kept, a, b)
    ensures RuleSame(kept, DecodeReg(m, rule, cfa, a, steps), DecodeReg(m, rule, cfa, b, steps), i)
  {
  }

  /** Outcomes of all rules on two files: as good, and the same for kept registers. */
  ghost predicate ValuesSame(kept: set<nat>, x: RuleValues, y: RuleValues) {
    forall i: RegisterIndex ::
      (x(i).None? <==> y(i).None?) && (x(i).Some? ==> RuleSame(kept, x(i).value, y(i).value, i))
  }

  lemma {:induction false} FilesSame(kept: set<nat>, x: RuleValues, y: RuleValues, a: RegisterFile, b: RegisterFile,
                                     stackPointer: u64)
    requires ValuesSame(kept, x, y) && SameOn(kept, a, b)
    ensures SameOutcome(kept, NewFile(x, a, stackPointer), NewFile(y, b, stackPointer))
  {
    NewFileIsSimultaneous(x, a, stackPointer);
    NewFileIsSimultaneous(y, b, stackPointer);
    var there, here := NewFile(x, a, stackPointer), NewFile(y, b, stackPointer);
    if there.Ok? {
      forall i: RegisterIndex
        ensures Evaluates(y, i)
      {
        assert Evaluates(x, i);
      }
      forall r: nat | r in kept && r < NUM_REGISTERS
        ensures there.value[r] == here.value[r]
      {
        var i: RegisterIndex := r;
        assert Evaluates(x, i) && Evaluates(y, i);
        assert i != RSP ==> there.value[i] == NewValue(x, a, i) && here.value[i] == NewValue(y, b, i);
      }
    }
  }

  /** A row that reads only kept registers restores them. */
  lemma {:induction false} RowRestores(m: Mem, steps: nat, kept: set<nat>, row: Row, a: RegisterFile, b: RegisterFile)
    requires RowReads(m, steps, kept, row) && SameOn(kept, a, b)
    ensures SameOutcome(kept, ApplyRow(m, row, a, steps), ApplyRow(m, row, b, steps))
  {
    CfaSame(m, steps, kept, row, a, b);
    var base := DecodeCfa(m, row, a, steps);
    if base.Ok? {
      var cfa := base.value;
      ApplyOnCfa(m, row, a, steps, cfa);
      ApplyOnCfa(m, row, b, steps, cfa);
      RowValuesSame(m, steps, kept, row, cfa, a, b);
      var x, y := RowValues(m, row, cfa, a, steps), RowValues(m, row, cfa, b, steps);
      FilesSame(kept, x, y, a, b, Wrap(cfa + row.argSize));
    }
  }

  lemma {:induction false} RowValuesSame(m: Mem, steps: nat, kept: set<nat>, row: Row, cfa: u64, a: RegisterFile,
                                         b: RegisterFile)
    requires RowReads(m, steps, kept, row) && SameOn(kept, a, b)
    ensures ValuesSame(kept, RowValues(m, row, cfa, a, steps), RowValues(m, row, cfa, b, steps))
  {
    forall i: RegisterIndex
      ensures RuleSame(kept, DecodeReg(m, row.rules[i], cfa, a, steps), DecodeReg(m, row.rules[i], cfa, b, steps), i)
    {
      RuleDecodes(m, steps, kept, row.rules[i], i, cfa, a, b);
    }
  }

  /////////////////////////////////////////////////////////////////////////////
  // What the frames of a process restore
  /////////////////////////////////////////////////////////////////////////////

  /** If this instruction pointer has an FDE and a row, the row reads only kept registers. */
  ghost predicate ReadsAt(proc: Process, kept: set<nat>, ip: u64) {
    var fde := FindFde(proc.m, proc.section, ip);
    fde.Ok? && fde.value.Exists() ==>
      var row := DecodeCfi(proc.m, fde.value, ip);
      row.Ok? ==> RowReads(proc.m, proc.steps, kept, row.value)
  }

  /**
   The frames of a process restore any set of registers that its rows compute from one another,
   whatever the rows say of the other registers.
   */
  lemma {:induction false} RowsRestore(proc: Process, kept: set<nat>)
    requires RIP in kept && forall ip: u64 :: ReadsAt(proc, kept, ip)
    ensures Restores(WalkerOf(proc), kept)
  {
    var w := WalkerOf(proc);
    forall a, b | SameOn(kept, a, b) && w.frame(a).Ok? && w.frame(a).value.Exists()
      ensures SameOutcome(kept, w.caller(w.frame(a).value, a), w.caller(w.frame(a).value, b))
    {
      FrameRestores(proc, kept, w.frame(a).value, a, b);
    }
  }

  lemma {:induction false} FrameRestores(proc: Process, kept: set<nat>, fde: Fde, a: RegisterFile, b: RegisterFile)
    requires RIP in kept && ReadsAt(proc, kept, a[RIP]) && SameOn(kept, a, b)
    requires FindFde(proc.m, proc.section, a[RIP]) == Ok(fde) && fde.Exists()
    ensures SameOutcome(kept, UnwindRegisters(proc.m, fde, a, proc.steps), UnwindRegisters(proc.m, fde, b, proc.steps))
  {
    var row := DecodeCfi(proc.m, fde, a[RIP]);
    assert a[RIP] == b[RIP];
    if row.Ok? {
      RowRestores(proc.m, proc.steps, kept, row.value, a, b);
    }
  }

  /** A row of ordinary code: the CFA is an offset from a kept register, and registers are saved on the stack. */
  predicate Ordinary(kept: set<nat>, row: Row) {
    && !row.cfa.isExpression && row.cfa.value in kept
    && forall i: RegisterIndex :: row.rules[i].rule in {Undefined, Offset}
  }

  predicate OrdinaryAt(proc: Process, kept: set<nat>, ip: u64) {
    var fde := FindFde(proc.m, proc.section, ip);
    fde.Ok? && fde.value.Exists() ==>
      var row := DecodeCfi(proc.m, fde.value, ip);
      row.Ok? ==> Ordinary(kept, row.value)
  }

  /** Ordinary frames restore the callee-saved registers, and rax is none of these. */
  lemma {:induction false} OrdinaryRestores(proc: Process)
    requires forall ip: u64 :: OrdinaryAt(proc, CALLEE_SAVED, ip)
    ensures Restores(WalkerOf(proc), CALLEE_SAVED) && 0 !in CALLEE_SAVED
  {
    forall ip: u64
      ensures ReadsAt(proc, CALLEE_SAVED, ip)
    {
      assert OrdinaryAt(proc, CALLEE_SAVED, ip);
    }
    RowsRestore(proc, CALLEE_SAVED);
  }

  /////////////////////////////////////////////////////////////////////////////
  // Landing pads that keep their frame
  /////////////////////////////////////////////////////////////////////////////

  /** Two rules give the caller the same value, once the CFA is the same. */
  predicate SameSlot(r: RegisterRule, s: RegisterRule, x: u64, y: u64) {
    && r.rule == s.rule
    && ((r.rule in {Offset, ValOffset} && r.value == s.value) || (r.rule == Undefined && x == y))
  }

  /**
   The frame of the registers b, with the row of its own instruction pointer, is that of a: it has
   the same CFA and argument size, and finds the kept registers of its caller in the same places.
   */
  predicate KeepsFrame(m: Mem, steps: nat, kept: set<nat>, fde: Fde, a: RegisterFile, fde': Fde, b: RegisterFile) {
    var r, s := DecodeCfi(m, fde, a[RIP]), DecodeCfi(m, fde', b[RIP]);
    && r.Ok? && s.Ok? && SameCfa(m, steps, r.value, a, s.value, b)
    && SameSlots(kept, r.value, a, s.value, b)
  }

  predicate SameSlots(kept: set<nat>, r: Row, a: RegisterFile, s: Row, b: RegisterFile) {
    forall i: RegisterIndex | i in kept && i != RSP :: SameSlot(r.rules[i], s.rules[i], a[i], b[i])
  }

  predicate SameCfa(m: Mem, steps: nat, r: Row, a: RegisterFile, s: Row, b: RegisterFile) {
    DecodeCfa(m, r, a, steps) == DecodeCfa(m, s, b, steps) && r.argSize == s.argSize
  }

  lemma {:induction false} SlotSame(m: Mem, steps: nat, cfa: u64, r: Row, a: RegisterFile, s: Row, b: RegisterFile,
                                    i: RegisterIndex)
    requires SameSlot(r.rules[i], s.rules[i], a[i], b[i])
    requires Evaluates(RowValues(m, r, cfa, a, steps), i) && Evaluates(RowValues(m, s, cfa, b, steps), i)
    ensures NewValue(RowValues(m, r, cfa, a, steps), a, i) == NewValue(RowValues(m, s, cfa, b, steps), b, i)
  {
  }

  /** The file holds what the rules say, but for the stack pointer. */
  ghost predicate HoldsValues(values: RuleValues, regs: RegisterFile, caller: RegisterFile) {
    forall i: RegisterIndex {:trigger HoldsValue(values, regs, caller, i)} :: HoldsValue(values, regs, caller, i)
  }

  predicate HoldsValue(values: RuleValues, regs: RegisterFile, caller: RegisterFile, i: RegisterIndex) {
    Evaluates(values, i) && (i != RSP ==> caller[i] == NewValue(values, regs, i))
  }

  /** The caller that a row describes: its CFA, its stack pointer and the values of its rules. */
  ghost predicate HoldsRow(m: Mem, steps: nat, row: Row, cfa: u64, argSize: u64, regs: RegisterFile,
                           caller: RegisterFile)
  {
    HoldsValues(RowValues(m, row, cfa, regs, steps), regs, caller) && caller[RSP] == Wrap(cfa + argSize)
  }

  lemma {:induction false} UnwoundBy(m: Mem, steps: nat, fde: Fde, regs: RegisterFile, row: Row, cfa: u64,
                                     caller: RegisterFile)
    requires DecodeCfi(m, fde, regs[RIP]) == Ok(row) && UnwindRegisters(m, fde, regs, steps) == Ok(caller)
    requires DecodeCfa(m, row, regs, steps) == Ok(cfa)
    ensures HoldsRow(m, steps, row, cfa, row.argSize, regs, caller)
  {
    UnwindIsSimultaneous(m, fde, regs, steps, row, cfa);
  }

  lemma {:induction false} UnwoundCfa(m: Mem, steps: nat, fde: Fde, regs: RegisterFile, row: Row, caller: RegisterFile)
    requires DecodeCfi(m, fde, regs[RIP]) == Ok(row) && UnwindRegisters(m, fde, regs, steps) == Ok(caller)
    ensures DecodeCfa(m, row, regs, steps).Ok?
  {
  }

  lemma {:induction false} RowsReturn(kept: set<nat>, m: Mem, steps: nat, cfa: u64, argSize: u64, r: Row,
                                      a: RegisterFile, s: Row, b: RegisterFile, caller: RegisterFile,
                                      caller': RegisterFile)
    requires HoldsRow(m, steps, r, cfa, argSize, a, caller)
    requires HoldsRow(m, steps, s, cfa, argSize, b, caller')
    requires SameSlots(kept, r, a, s, b)
    ensures SameOn(kept, caller, caller')
  {
    ValuesReturn(kept, RowValues(m, r, cfa, a, steps), RowValues(m, s, cfa, b, steps), m, steps, cfa, caller[RSP],
                 r, a, s, b, caller, caller');
  }

  lemma {:induction false} ValuesReturn(kept: set<nat>, x: RuleValues, y: RuleValues, m: Mem, steps: nat, cfa: u64,
                                        stackPointer: u64, r: Row, a: RegisterFile, s: Row, b: RegisterFile,
                                        caller: RegisterFile, caller': RegisterFile)
    requires x == RowValues(m, r, cfa, a, steps) && y == RowValues(m, s, cfa, b, steps)
    requires caller[RSP] == stackPointer && caller'[RSP] == stackPointer
    requires HoldsValues(x, a, caller) && HoldsValues(y, b, caller')
    requires SameSlots(kept, r, a, s, b)
    ensures SameOn(kept, caller, caller')
  {
    forall i: nat | i in kept && i < NUM_REGISTERS
      ensures caller[i] == caller'[i]
    {
      var j: RegisterIndex := i;
      if j != RSP {
        assert HoldsValue(x, a, caller, j) && HoldsValue(y, b, caller', j);
        SlotSame(m, steps, cfa, r, a, s, b, j);
      }
    }
  }

  /** Then both return to a caller with the same kept registers, whatever the others hold. */
  lemma {:induction false} KeptFrameReturns(m: Mem, steps: nat, kept: set<nat>, fde: Fde, a: RegisterFile, fde': Fde,
                                            b: RegisterFile, caller: RegisterFile, caller': RegisterFile)
    requires KeepsFrame(m, steps, kept, fde, a, fde', b)
    requires UnwindRegisters(m, fde, a, steps) == Ok(caller) && UnwindRegisters(m, fde', b, steps) == Ok(caller')
    ensures SameOn(kept, caller, caller')
  {
    var r, s := DecodeCfi(m, fde, a[RIP]).value, DecodeCfi(m, fde', b[RIP]).value;
    UnwoundCfa(m, steps, fde, a, r, caller);
    var cfa := DecodeCfa(m, r, a, steps).value;
    UnwoundBy(m, steps, fde, a, r, cfa, caller);
    UnwoundBy(m, steps, fde', b, s, cfa, caller');
    RowsReturn(kept, m, steps, cfa, r.argSize, r, a, s, b, caller, caller');
  }

  /** From `first`, in the frame of call j as its landing pad has kept it, the cleanup phase climbs to `to`. */
  predicate PadKeeps(proc: Process, kept: set<nat>, found: Walked<u64>, j: nat, first: RegisterFile, pad: Call,
                     to: RegisterFile)
    requires found.result.Some? && j < |found.calls|
  {
    && CleanupTurn(WalkerOf(proc), found.result.value, first) == Ok(Climb(pad, to))
    && KeepsFrame(proc.m, proc.steps, kept, found.calls[j].fde, found.calls[j].regs, pad.fde, first)
  }

  /** A search found a handler behind frame j, whose landing pad has kept its frame and resumes there. */
  predicate Resumes(proc: Process, start: RegisterFile, frames: nat, j: nat, kept: set<nat>, regs: RegisterFile,
                    first: RegisterFile, pad: Call, to: RegisterFile)
  {
    var found := SearchFrom(WalkerOf(proc), start, frames);
    && found.Ok? && found.value.result.Some? && j + 1 < |found.value.calls|
    && FirstFrame(WalkerOf(proc), regs) == Ok(Some(first))
    && PadKeeps(proc, kept, found.value, j, first, pad, to)
  }

  /**
   After the cleanup of frame j of the search: where its landing pad has kept the frame, and no
   further cleanup covers the place it resumes from, _Unwind_Resume installs again, in the frames
   behind j and no further than the handler.
   */
  lemma {:induction false} ResumeAfterCleanup(proc: Process, start: RegisterFile, frames: nat, j: nat, kept: set<nat>,
                                              regs: RegisterFile, first: RegisterFile, pad: Call, to: RegisterFile)
    requires RIP in kept && Restores(WalkerOf(proc), kept)
    requires Resumes(proc, start, frames, j, kept, regs, first, pad, to)
    ensures ResumesBehind(WalkerOf(proc), SearchFrom(WalkerOf(proc), start, frames), j + 1, kept, regs, 1, frames)
  {
    PersonalityAgrees(proc);
    PointerDecides(proc, kept);
    SearchStopsAtHandler(WalkerOf(proc), start, frames);
    PadReturns(proc, kept, SearchFrom(WalkerOf(proc), start, frames).value, j, first, pad, to);
    BehindPad(WalkerOf(proc), start, frames, j + 1, kept, regs, first, 1, to);
  }

  /** The cleanup phase from these registers goes well, and agrees with the search from frame i on behind n calls. */
  ghost predicate ResumesBehind(w: Walker, found: Outcome<Walked<u64>>, i: nat, kept: set<nat>, regs: RegisterFile,
                                n: nat, frames: nat)
  {
    && found.Ok? && found.value.result.Some? && i < |found.value.calls|
    && var second := Phase2(w, found.value.result.value, regs, n + frames);
       second.Ok? && ResumedAgreement(w, kept, found.value, i, n, second.value)
  }

  lemma {:induction false} BehindPad(w: Walker, start: RegisterFile, frames: nat, i: nat, kept: set<nat>,
                                     regs: RegisterFile, first: RegisterFile, n: nat, to: RegisterFile)
    requires Agrees(w) && Restores(w, kept) && Decides(w, kept)
    requires SearchFrom(w, start, frames).Ok? && SearchFrom(w, start, frames).value.result.Some?
    requires var found := SearchFrom(w, start, frames).value;
             && i < |found.calls| && Reaches(w, found.result.value, first, n, to)
             && SameOn(kept, found.calls[i].regs, to)
    requires FirstFrame(w, regs) == Ok(Some(first))
    ensures ResumesBehind(w, SearchFrom(w, start, frames), i, kept, regs, n, frames)
  {
    PhaseResumes(w, start, frames, i, kept, regs, first, n, to);
  }

  lemma {:induction false} PadReturns(proc: Process, kept: set<nat>, found: Walked<u64>, j: nat, first: RegisterFile,
                                      pad: Call, to: RegisterFile)
    requires found.result.Some? && j + 1 < |found.calls| && Climbs(WalkerOf(proc), found.calls)
    requires PadKeeps(proc, kept, found, j, first, pad, to)
    ensures SameOn(kept, found.calls[j + 1].regs, to)
    ensures Reaches(WalkerOf(proc), found.result.value, first, 1, to)
  {
    var w := WalkerOf(proc);
    OneTurn(w, found.result.value, first, pad, to);
    KeptFrameReturns(proc.m, proc.steps, kept, found.calls[j].fde, found.calls[j].regs, pad.fde, first,
                     found.calls[j + 1].regs, to);
  }

  lemma {:induction false} OneTurn(w: Walker, handler: u64, first: RegisterFile, pad: Call, to: RegisterFile)
    requires CleanupTurn(w, handler, first) == Ok(Climb(pad, to))
    ensures w.caller(pad.fde, first) == Ok(to) && Reaches(w, handler, first, 1, to)
  {
    assert Reaches(w, handler, to, 0, to);
  }

  /////////////////////////////////////////////////////////////////////////////
  // Expressions
  /////////////////////////////////////////////////////////////////////////////

  /** A node reads no register outside `kept`. */
  predicate NodeReads(e: ExpressionCompiler.Expr, kept: set<nat>) {
    match e
    case Reg(n) => n in kept
    case Breg(n, _) => n in kept
    case Regx(n) => n in kept
    case Bregx(n, _) => n in kept
    case _ => true
  }

  lemma {:induction false} NodeSame(m: Mem, kept: set<nat>, a: RegisterFile, b: RegisterFile,
                                    e: ExpressionCompiler.Expr, stack: ExpressionCompiler.Stack)
    requires NodeReads(e, kept) && SameOn(kept, a, b)
    ensures ExpressionCompiler.NodeSteps(m, a)(e, stack) == ExpressionCompiler.NodeSteps(m, b)(e, stack)
  {
    if ExpressionCompiler.WellFormed(e) && ExpressionCompiler.IsLeaf(e) {
      assert ExpressionCompiler.Eval(m, a, e) == ExpressionCompiler.Eval(m, b, e);
    }
  }

  lemma {:induction false} NodesSame(m: Mem, kept: set<nat>, a: RegisterFile, b: RegisterFile,
                                     nodes: seq<ExpressionCompiler.Expr>, stack: ExpressionCompiler.Stack)
    requires SameOn(kept, a, b) && forall e <- nodes :: NodeReads(e, kept)
    ensures ExpressionCompiler.Stacked(ExpressionCompiler.NodeSteps(m, a), nodes, stack) ==
            ExpressionCompiler.Stacked(ExpressionCompiler.NodeSteps(m, b), nodes, stack)
    decreases |nodes|
  {
    if nodes != [] {
      NodeSame(m, kept, a, b, nodes[0], stack);
      var next := ExpressionCompiler.NodeSteps(m, a)(nodes[0], stack);
      if next.Ok? {
        NodesSame(m, kept, a, b, nodes[1..], next.value);
      }
    }
  }

  /** A block that holds a tree reads only kept registers if the nodes of the tree do. */
  lemma {:induction false} TreeReads(m: Mem, steps: nat, kept: set<nat>, p: int, e: ExpressionCompiler.Expr)
    requires ExpressionCompiler.WellFormed(e) && Holds(m, p, ExpressionCompiler.Block(ExpressionCompiler.Compile(e)))
    requires 0 <= p && p + |ExpressionCompiler.Compile(e)| < TWO64 && steps > ExpressionCompiler.Length(e)
    requires forall node <- ExpressionCompiler.Postfix(e) :: NodeReads(node, kept)
    ensures BlockReads(m, steps, kept, p)
  {
    var nodes := ExpressionCompiler.Postfix(e)[..ExpressionCompiler.NodesRun(e)];
    forall start: u64, a, b | SameOn(kept, a, b)
      ensures ParseExpression(m, p, start, a, steps) == ParseExpression(m, p, start, b, steps)
    {
      ExpressionCompiler.ParseBlock(m, p, start, a, e, steps);
      ExpressionCompiler.ParseBlock(m, p, start, b, e, steps);
      NodesSame(m, kept, a, b, nodes, [start]);
    }
  }
}
