/**
 dwarf4::unwind: the row of the table that covers the instruction pointer is applied to the
 register file.  Every rule reads the committed registers and writes the temporary ones, so
 the seventeen assignments happen at once.
 */
module Unwind {
  import opened Words
  import opened Memory
  import opened Loops
  import opened Registers
  import opened Expression
  import opened EhFrame
  import opened Cfi
  import CfiMachine
  import ExpressionArray

  /** private_decode_cfa. */
  function DecodeCfa(m: Mem, row: Row, regs: RegisterFile, fuel: nat): Outcome<u64> {
    if row.cfa.isExpression then ParseExpression(m, row.cfa.value, 0, regs, fuel)
    else
      var base :- Get(regs, row.cfa.value);
      AddOffset(base, row.cfa.offset)
  }

  /** private_decode_reg. */
  function DecodeReg(m: Mem, rule: RegisterRule, cfa: u64, regs: RegisterFile, fuel: nat): Outcome<u64> {
    match rule.rule
    case Undefined => Abort
    case SameValue => Get(regs, rule.index)
    case Offset => var address :- AddOffset(cfa, rule.value); Read64(m, address)
    case ValOffset => AddOffset(cfa, rule.value)
    case InRegister => Get(regs, rule.value)
    case InExpression => var address :- ParseExpression(m, rule.value, cfa, regs, fuel); Read64(m, address)
    case ValExpression => ParseExpression(m, rule.value, cfa, regs, fuel)
  }

  type RegisterIndex = i: nat | i < 17

  /** What the row says of each register: nothing, or the outcome of its rule on the old registers. */
  type RuleValues = RegisterIndex -> Option<Outcome<u64>>

  function RowValues(m: Mem, row: Row, cfa: u64, regs: RegisterFile, fuel: nat): RuleValues {
    (i: RegisterIndex) =>
      if row.rules[i].rule == Undefined then None else Some(DecodeReg(m, row.rules[i], cfa, regs, fuel))
  }

  /** The loop over the registers, for the indices in `order`: defined rules are set in tmp. */
  function Assign(values: RuleValues, order: seq<RegisterIndex>, tmp: RegisterFile): Outcome<RegisterFile>
    decreases |order|
  {
    if order == [] then Ok(tmp)
    else
      match values(order[0])
      case None => Assign(values, order[1..], tmp)
      case Some(outcome) =>
        var value :- outcome;
        Assign(values, order[1..], tmp[order[0] := value])
  }

  /** The source's order: 0, 1, ..., 16. */
  function SourceOrder(): (order: seq<RegisterIndex>)
    ensures |order| == NUM_REGISTERS && forall i: nat | i < NUM_REGISTERS :: order[i] == i
  {
    seq(17, i requires 0 <= i < 17 => i as RegisterIndex)
  }

  /** dwarf4::unwind on a settled register state. */
  function UnwindRegisters(m: Mem, fde: Fde, regs: RegisterFile, fuel: nat): Outcome<RegisterFile> {
    var row :- DecodeCfi(m, fde, regs[RIP]);
    ApplyRow(m, row, regs, fuel)
  }

  /** Its second half: the row is applied to the registers. */
  function ApplyRow(m: Mem, row: Row, regs: RegisterFile, fuel: nat): Outcome<RegisterFile> {
    var cfa :- DecodeCfa(m, row, regs, fuel);
    NewFile(RowValues(m, row, cfa, regs, fuel), regs, Wrap(cfa + row.argSize))
  }

  /** The loop over the registers and commit(cfa). */
  function NewFile(values: RuleValues, regs: RegisterFile, stackPointer: u64): Outcome<RegisterFile> {
    var tmp :- Assign(values, SourceOrder(), regs);
    Ok(tmp[RSP := stackPointer])
  }

  /** Register i has no rule, or a rule that can be evaluated. */
  predicate Evaluates(values: RuleValues, i: RegisterIndex) {
    values(i).None? || values(i).value.Ok?
  }

  /** What register i becomes; an undefined rule leaves it. */
  function NewValue(values: RuleValues, regs: RegisterFile, i: RegisterIndex): u64
    requires Evaluates(values, i)
  {
    match values(i)
    case None => regs[i]
    case Some(outcome) => outcome.value
  }

  /** The loop succeeds exactly if every rule it meets does, and then sets just those registers. */
  lemma {:induction false} AssignOutcome(values: RuleValues, order: seq<RegisterIndex>, tmp: RegisterFile)
    ensures Assign(values, order, tmp).Ok? <==> forall i | i in order :: Evaluates(values, i)
    ensures Assign(values, order, tmp).Ok? ==>
              forall i: RegisterIndex :: Assign(values, order, tmp).value[i] ==
                                         if i in order then NewValue(values, tmp, i) else tmp[i]
    decreases |order|
  {
    if order != [] {
      var head, rest := order[0], order[1..];
      assert order == [head] + rest;
      if Evaluates(values, head) {
        AssignOutcome(values, rest, if values(head).None? then tmp else tmp[head := values(head).value.value]);
      }
    }
  }

  /** An order that reaches every register updates the whole file at once. */
  lemma {:induction false} AssignAll(values: RuleValues, order: seq<RegisterIndex>, regs: RegisterFile)
    requires forall i: RegisterIndex :: i in order
    ensures Assign(values, order, regs).Ok? <==> forall i: RegisterIndex :: Evaluates(values, i)
    ensures Assign(values, order, regs).Ok? ==>
              forall i: RegisterIndex :: Assign(values, order, regs).value[i] == NewValue(values, regs, i)
  {
    AssignOutcome(values, order, regs);
  }

  lemma {:induction false} SourceOrderIsComplete()
    ensures forall i: RegisterIndex :: i in SourceOrder()
  {
    forall i: RegisterIndex
      ensures i in SourceOrder()
    {
      assert SourceOrder()[i] == i;
    }
  }

  /** The order of the loop does not matter: any order that reaches every register does the same. */
  lemma {:induction false} OrderIrrelevant(values: RuleValues, regs: RegisterFile, order: seq<RegisterIndex>)
    requires forall i: RegisterIndex :: i in order
    ensures var there := Assign(values, order, regs);
            var here := Assign(values, SourceOrder(), regs);
            (there.Ok? <==> here.Ok?) && (here.Ok? ==> there == here)
  {
    AssignAll(values, order, regs);
    SourceOrderIsComplete();
    AssignAll(values, SourceOrder(), regs);
    var there, here := Assign(values, order, regs), Assign(values, SourceOrder(), regs);
    if here.Ok? {
      forall i: nat | i < 17
        ensures there.value[i] == here.value[i]
      {
        var j: RegisterIndex := i;
        assert there.value[j] == NewValue(values, regs, j) && here.value[j] == NewValue(values, regs, j);
      }
      assert there.value == here.value;
    }
  }

  lemma {:induction false} NewFileIsSimultaneous(values: RuleValues, regs: RegisterFile, stackPointer: u64)
    ensures var r := NewFile(values, regs, stackPointer);
            && (r.Ok? <==> forall i: RegisterIndex :: Evaluates(values, i))
            && (r.Ok? ==> r.value[RSP] == stackPointer
                          && forall i: RegisterIndex | i != RSP :: r.value[i] == NewValue(values, regs, i))
  {
    SourceOrderIsComplete();
    AssignAll(values, SourceOrder(), regs);
  }

  /**
   Simultaneous assignment: unwinding succeeds exactly if the row, the CFA and every defined
   rule do, each rule being evaluated on the registers from before; then undefined registers
   keep their values and the stack pointer becomes the CFA plus the argument size, whatever
   rule it had.
   */
  lemma {:induction false} UnwindIsSimultaneous(m: Mem, fde: Fde, regs: RegisterFile, fuel: nat, row: Row, cfa: u64)
    requires DecodeCfi(m, fde, regs[RIP]) == Ok(row) && DecodeCfa(m, row, regs, fuel) == Ok(cfa)
    ensures var r := UnwindRegisters(m, fde, regs, fuel);
            var values := RowValues(m, row, cfa, regs, fuel);
            && (r.Ok? <==> forall i: RegisterIndex :: Evaluates(values, i))
            && (r.Ok? ==> r.value[RSP] == Wrap(cfa + row.argSize)
                          && forall i: RegisterIndex | i != RSP :: r.value[i] == NewValue(values, regs, i))
  {
    NewFileIsSimultaneous(RowValues(m, row, cfa, regs, fuel), regs, Wrap(cfa + row.argSize));
    ApplyOnCfa(m, row, regs, fuel, cfa);
    assert UnwindRegisters(m, fde, regs, fuel) == ApplyRow(m, row, regs, fuel);
  }

  lemma {:induction false} ApplyOnCfa(m: Mem, row: Row, regs: RegisterFile, fuel: nat, cfa: u64)
    requires DecodeCfa(m, row, regs, fuel) == Ok(cfa)
    ensures ApplyRow(m, row, regs, fuel) == NewFile(RowValues(m, row, cfa, regs, fuel), regs, Wrap(cfa + row.argSize))
  {
  }

  /** Every rule of the row stands under its own index. */
  predicate WellIndexed(row: Row) {
    forall i | 0 <= i < MAX_NUM_REGISTERS :: row.rules[i].index == i
  }

  predicate StateWellIndexed(s: CfiState) {
    WellIndexed(s.row) && forall r | r in s.saved :: WellIndexed(r)
  }

  lemma {:induction false} StepKeepsIndices(m: Mem, cie: Cie, initial: Row, s: CfiState)
    requires WellIndexed(initial) && StateWellIndexed(s) && Cfi.Step(m, cie, initial, s).Ok?
    ensures StateWellIndexed(Cfi.Step(m, cie, initial, s).value)
  {
  }

  lemma {:induction false} RunKeepsIndices(m: Mem, cie: Cie, initial: Row, end: int, target: u64, s: CfiState)
    requires WellIndexed(initial) && StateWellIndexed(s) && RunTo(m, cie, initial, end, target, s).Ok?
    ensures WellIndexed(RunTo(m, cie, initial, end, target, s).value)
    decreases if s.p < end then end - s.p else 0
  {
    if s.p < end && target >= s.loc {
      StepKeepsIndices(m, cie, initial, s);
      RunKeepsIndices(m, cie, initial, end, target, Cfi.Step(m, cie, initial, s).value);
    }
  }

  /** So a same_value rule, in the row of any program, keeps the register it stands for. */
  lemma {:induction false} SameValueKeeps(m: Mem, fde: Fde, regs: RegisterFile, fuel: nat, row: Row, cfa: u64,
                                          i: RegisterIndex)
    requires DecodeCfi(m, fde, regs[RIP]) == Ok(row) && row.rules[i].rule == SameValue
    ensures Evaluates(RowValues(m, row, cfa, regs, fuel), i)
    ensures NewValue(RowValues(m, row, cfa, regs, fuel), regs, i) == regs[i]
  {
    var initial := InitialRow(m, fde.cie).value;
    RunKeepsIndices(m, fde.cie, DefaultRow(), fde.cie.extent.end, 0, Start(fde.cie.instructions, DefaultRow()));
    RunKeepsIndices(m, fde.cie, initial, fde.extent.end, Wrap((regs[RIP] as int) - fde.pcBegin),
                    Start(fde.instructions, initial));
  }

  /////////////////////////////////////////////////////////////////////////////
  // The step budget
  /////////////////////////////////////////////////////////////////////////////

  lemma {:induction false} DecodeFuel(m: Mem, row: Row, rule: RegisterRule, cfa: u64, regs: RegisterFile, fuel: nat,
                                      more: nat)
    requires fuel <= more
    ensures Settles(DecodeCfa(m, row, regs, fuel), DecodeCfa(m, row, regs, more))
    ensures Settles(DecodeReg(m, rule, cfa, regs, fuel), DecodeReg(m, rule, cfa, regs, more))
  {
    if !ParseExpression(m, row.cfa.value, 0, regs, fuel).Timeout? {
      ParseFuel(m, row.cfa.value, 0, regs, fuel, more);
    }
    if !ParseExpression(m, rule.value, cfa, regs, fuel).Timeout? {
      ParseFuel(m, rule.value, cfa, regs, fuel, more);
    }
  }

  /** The same rules with a smaller and a larger budget. */
  ghost predicate AllSettle(small: RuleValues, large: RuleValues) {
    forall i: RegisterIndex :: (small(i).Some? <==> large(i).Some?) &&
                               (small(i).Some? ==> Settles(small(i).value, large(i).value))
  }

  lemma {:induction false} AssignFuel(small: RuleValues, large: RuleValues, order: seq<RegisterIndex>,
                                      tmp: RegisterFile)
    requires AllSettle(small, large)
    ensures Settles(Assign(small, order, tmp), Assign(large, order, tmp))
    decreases |order|
  {
    if order != [] {
      match small(order[0])
      case None => AssignFuel(small, large, order[1..], tmp);
      case Some(outcome) =>
        if outcome.Ok? {
          AssignFuel(small, large, order[1..], tmp[order[0] := outcome.value]);
        }
    }
  }

  lemma {:induction false} RulesFuel(m: Mem, row: Row, cfa: u64, regs: RegisterFile, fuel: nat, more: nat)
    requires fuel <= more
    ensures AllSettle(RowValues(m, row, cfa, regs, fuel), RowValues(m, row, cfa, regs, more))
  {
    forall i: RegisterIndex
      ensures Settles(DecodeReg(m, row.rules[i], cfa, regs, fuel), DecodeReg(m, row.rules[i], cfa, regs, more))
    {
      DecodeFuel(m, row, row.rules[i], cfa, regs, fuel, more);
    }
  }

  lemma {:induction false} ApplyFuel(m: Mem, row: Row, regs: RegisterFile, fuel: nat, more: nat)
    requires fuel <= more
    ensures Settles(ApplyRow(m, row, regs, fuel), ApplyRow(m, row, regs, more))
  {
    DecodeFuel(m, row, row.rules[0], 0, regs, fuel, more);
    var computed := DecodeCfa(m, row, regs, fuel);
    if computed.Ok? {
      var cfa := computed.value;
      ApplyOnCfa(m, row, regs, fuel, cfa);
      ApplyOnCfa(m, row, regs, more, cfa);
      RulesFuel(m, row, cfa, regs, fuel, more);
      AssignFuel(RowValues(m, row, cfa, regs, fuel), RowValues(m, row, cfa, regs, more), SourceOrder(), regs);
    }
  }

  lemma {:induction false} UnwindFuel(m: Mem, fde: Fde, regs: RegisterFile, fuel: nat, more: nat)
    requires fuel <= more
    ensures Settles(UnwindRegisters(m, fde, regs, fuel), UnwindRegisters(m, fde, regs, more))
  {
    var decoded := DecodeCfi(m, fde, regs[RIP]);
    if decoded.Ok? {
      ApplyFuel(m, decoded.value, regs, fuel, more);
    }
  }

  /////////////////////////////////////////////////////////////////////////////
  // The source's form
  /////////////////////////////////////////////////////////////////////////////

  method RegisterValue(m: Mem, rule: RegisterRule, cfa: u64, state: RegisterState, fuel: nat) returns (r: Outcome<u64>)
    ensures r == DecodeReg(m, rule, cfa, state.committed, fuel)
  {
    match rule.rule
    case Undefined =>
      r := Abort;
    case SameValue =>
      r := state.GetRegister(rule.index);
    case Offset =>
      var address :- AddOffset(cfa, rule.value);
      r := Read64(m, address);
    case ValOffset =>
      r := AddOffset(cfa, rule.value);
    case InRegister =>
      r := state.GetRegister(rule.value);
    case InExpression =>
      var parsed := ExpressionArray.ParseExpressionInPlace(m, rule.value, cfa, state.committed, fuel);
      var address :- parsed;
      r := Read64(m, address);
    case ValExpression =>
      r := ExpressionArray.ParseExpressionInPlace(m, rule.value, cfa, state.committed, fuel);
  }

  method CfaValue(m: Mem, row: Row, state: RegisterState, fuel: nat) returns (r: Outcome<u64>)
    ensures r == DecodeCfa(m, row, state.committed, fuel)
  {
    if row.cfa.isExpression {
      r := ExpressionArray.ParseExpressionInPlace(m, row.cfa.value, 0, state.committed, fuel);
    } else {
      var read := state.GetRegister(row.cfa.value);
      var base :- read;
      r := AddOffset(base, row.cfa.offset);
    }
  }

  /** One turn of the loop: what the order from i on does. */
  lemma {:induction false} NextRule(values: RuleValues, i: RegisterIndex, tmp: RegisterFile)
    ensures var rest := SourceOrder()[i + 1..];
            Assign(values, SourceOrder()[i..], tmp) ==
            match values(i)
            case None => Assign(values, rest, tmp)
            case Some(outcome) => var value :- outcome; Assign(values, rest, tmp[i := value])
  {
    assert SourceOrder()[i..][0] == i && SourceOrder()[i..][1..] == SourceOrder()[i + 1..];
  }

  /** The loop over the registers. */
  method AssignRules(m: Mem, row: Row, cfa: u64, state: RegisterState, fuel: nat) returns (r: Outcome<()>)
    requires state.Settled()
    modifies state`temporary
    ensures Reports(Assign(RowValues(m, row, cfa, state.committed, fuel), SourceOrder(), state.committed), r,
                    state.temporary, state.temporary)
  {
    ghost var regs := state.committed;
    ghost var values := RowValues(m, row, cfa, regs, fuel);
    assert SourceOrder()[0..] == SourceOrder();
    var i := 0;
    while i < NUM_REGISTERS
      invariant i <= NUM_REGISTERS
      invariant Assign(values, SourceOrder(), regs) == Assign(values, SourceOrder()[i..], state.temporary)
    {
      NextRule(values, i, state.temporary);
      var rule := row.rules[i];
      if rule.rule != Undefined {
        var restored := RegisterValue(m, rule, cfa, state, fuel);
        var value :- restored;
        var done := state.Set(i, value);
      }
      i := i + 1;
    }
    return Ok(());
  }

  /** The row applied and committed; a failure has committed nothing. */
  method ApplyRowInPlace(m: Mem, row: Row, state: RegisterState, fuel: nat) returns (r: Outcome<()>)
    requires state.Settled()
    modifies state
    ensures Reports(ApplyRow(m, row, old(state.committed), fuel), r, old(state.committed), state.committed)
    ensures r.Ok? ==> state.Settled()
  {
    var computed := CfaValue(m, row, state, fuel);
    var cfa :- computed;
    ApplyOnCfa(m, row, state.committed, fuel, cfa);
    r := AssignRules(m, row, cfa, state, fuel);
    if r.Ok? {
      state.CommitCfa(Wrap(cfa + row.argSize));
    }
  }

  /** The committed registers are the computed ones, or, after a failure, the old ones. */
  predicate Reports(computed: Outcome<RegisterFile>, r: Outcome<()>, before: RegisterFile, after: RegisterFile) {
    match computed
    case Ok(file) => r == Ok(()) && after == file
    case Abort => r == Abort && after == before
    case Fault => r == Fault && after == before
    case Timeout => r == Timeout && after == before
  }

  /** dwarf4::unwind: the state is settled before and after. */
  method UnwindFrame(m: Mem, fde: Fde, state: RegisterState, fuel: nat) returns (r: Outcome<()>)
    requires state.Settled()
    modifies state
    ensures Reports(UnwindRegisters(m, fde, old(state.committed), fuel), r, old(state.committed), state.committed)
    ensures r.Ok? ==> state.Settled()
  {
    var ip := state.GetIp();
    var decoded := CfiMachine.DecodeRow(m, fde, ip);
    var row :- decoded;
    r := ApplyRowInPlace(m, row, state, fuel);
  }
}
