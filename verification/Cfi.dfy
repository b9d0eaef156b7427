/**
 The call-frame instruction machine of dwarf4.cpp (sections 6.4.1 to 6.4.3 of DWARF 4): a
 program of instructions builds a table of rows, one per code location; the source runs the
 program only as far as the wanted location and keeps no table.
 */
module Cfi {
  import opened Words
  import opened Memory
  import opened Leb128
  import opened EhFrame

  const MAX_NUM_REGISTERS: nat := 32
  const REMEMBER_STACK_SIZE: nat := 10

  datatype Rule = Undefined | SameValue | Offset | ValOffset | InRegister | InExpression | ValExpression

  /** cfi_register. */
  datatype RegisterRule = RegisterRule(index: nat, rule: Rule, value: u64)

  /** cfi_cfa: a register plus a signed offset, or an expression. */
  datatype Cfa = Cfa(value: u64, offset: u64, isExpression: bool)

  type RuleTable = rules: seq<RegisterRule> | |rules| == 32 witness seq(32, _ => RegisterRule(0, Undefined, 0))

  /** cfi_table_row. */
  datatype Row = Row(cfa: Cfa, argSize: u64, rules: RuleTable) {
    /** set_reg(const cfi_register &). */
    function SetRule(rule: RegisterRule): Outcome<Row> {
      if rule.index >= MAX_NUM_REGISTERS then Abort else Ok(this.(rules := rules[rule.index := rule]))
    }

    /** set_reg(index, rule): the value stays. */
    function SetRuleKind(index: nat, rule: Rule): Outcome<Row> {
      if index >= MAX_NUM_REGISTERS then Abort
      else Ok(this.(rules := rules[index := rules[index].(rule := rule)]))
    }

    function GetRule(index: nat): Outcome<RegisterRule> {
      if index >= MAX_NUM_REGISTERS then Abort else Ok(rules[index])
    }
  }

  /** A new row: every register undefined, under its own index. */
  function DefaultRow(): Row {
    Row(Cfa(0, 0, false), 0, seq(32, i requires 0 <= i < 32 => RegisterRule(i, Undefined, 0)))
  }

  /** The loop's state: the cursor, the location l2, the row, and the live remember stack. */
  datatype CfiState = CfiState(p: int, loc: u64, row: Row, saved: seq<Row>)

  /** private_parse_instructions starts at location 0 with nothing remembered. */
  function Start(p: int, row: Row): CfiState {
    CfiState(p, 0, row, [])
  }

  /////////////////////////////////////////////////////////////////////////////
  // Instructions
  /////////////////////////////////////////////////////////////////////////////

  const CFA_ADVANCE_LOC: int := 0x40
  const CFA_OFFSET: int := 0x80
  const CFA_RESTORE: int := 0xC0
  const CFA_SET_LOC: int := 0x01
  const CFA_ADVANCE_LOC1: int := 0x02
  const CFA_ADVANCE_LOC2: int := 0x03
  const CFA_ADVANCE_LOC4: int := 0x04
  const CFA_OFFSET_EXTENDED: int := 0x05
  const CFA_RESTORE_EXTENDED: int := 0x06
  const CFA_UNDEFINED: int := 0x07
  const CFA_SAME_VALUE: int := 0x08
  const CFA_REGISTER: int := 0x09
  const CFA_REMEMBER_STATE: int := 0x0A
  const CFA_RESTORE_STATE: int := 0x0B
  const CFA_DEF_CFA: int := 0x0C
  const CFA_DEF_CFA_REGISTER: int := 0x0D
  const CFA_DEF_CFA_OFFSET: int := 0x0E
  const CFA_DEF_CFA_EXPRESSION: int := 0x0F
  const CFA_EXPRESSION: int := 0x10
  const CFA_OFFSET_EXTENDED_SF: int := 0x11
  const CFA_DEF_CFA_SF: int := 0x12
  const CFA_DEF_CFA_OFFSET_SF: int := 0x13
  const CFA_VAL_OFFSET: int := 0x14
  const CFA_VAL_OFFSET_SF: int := 0x15
  const CFA_VAL_EXPRESSION: int := 0x16
  const CFA_GNU_ARGS_SIZE: int := 0x2E
  const CFA_GNU_NEGATIVE_OFFSET_EXTENDED: int := 0x2F

  /**
   The opcode in the first byte of an instruction: its two top bits, or its six low bits when
   those are zero; see OpcodeMask.
   */
  function Opcode(b: byte): byte {
    if b / 64 == 0 then b % 64 else 64 * (b / 64)
  }

  /** The operand is the byte and-ed with 0x3F, and the top bits are the byte and-ed with 0xC0. */
  lemma {:induction false} OpcodeMask(b: byte)
    ensures Bits(AndGate, b, 0x3F) == b % 64
    ensures Bits(AndGate, b, 0xC0) == 64 * (b / 64)
  {
    LowMask(b);
    HighMask(b);
  }

  lemma {:induction false} LowMask(b: byte)
    ensures Bits(AndGate, b, 0x3F) == b % 64
  {
    AndOnes(b, 7);
    AndOnes(b / 8, 0);
    AndZero(b / 64);
    assert b / 64 == (b / 8) / 8;
  }

  lemma {:induction false} HighMask(b: byte)
    ensures Bits(AndGate, b, 0xC0) == 64 * (b / 64)
  {
    AndZeros(b, 24);
    AndZeros(b / 8, 3);
    var top := b / 64;
    assert top == (b / 8) / 8;
    BitsStep(AndGate, top, 3, top / 2, top % 2, 1, 1);
    BitsStep(AndGate, top / 2, 1, 0, top / 2, 0, 1);
  }

  lemma {:induction false} AndZeros(a: nat, c: nat)
    ensures Bits(AndGate, a, 8 * c) == 8 * Bits(AndGate, a / 8, c)
  {
    AndEven(a, 4 * c);
    AndEven(a / 2, 2 * c);
    AndEven(a / 4, c);
    ThreeDigits(a, Bits(AndGate, a / 8, c));
  }

  lemma {:induction false} AndEven(a: nat, c: nat)
    ensures Bits(AndGate, a, 2 * c) == 2 * Bits(AndGate, a / 2, c)
  {
    BitsStep(AndGate, a, 2 * c, a / 2, a % 2, c, 0);
  }

  lemma {:induction false} AndOnes(a: nat, c: nat)
    ensures Bits(AndGate, a, 8 * c + 7) == a % 8 + 8 * Bits(AndGate, a / 8, c)
  {
    AndOne(a, 4 * c + 3);
    AndOne(a / 2, 2 * c + 1);
    AndOne(a / 4, c);
    ThreeDigits(a, Bits(AndGate, a / 8, c));
  }

  lemma {:induction false} AndOne(a: nat, c: nat)
    ensures Bits(AndGate, a, 2 * c + 1) == a % 2 + 2 * Bits(AndGate, a / 2, c)
  {
    BitsStep(AndGate, a, 2 * c + 1, a / 2, a % 2, c, 1);
  }

  lemma {:induction false} ThreeDigits(a: nat, high: nat)
    ensures a / 2 / 2 == a / 4 && a / 4 / 2 == a / 8
    ensures a % 2 + 2 * (a / 2 % 2 + 2 * (a / 4 % 2 + 2 * high)) == a % 8 + 8 * high
  {
  }

  predicate IsAdvance(opcode: byte) {
    opcode in {CFA_ADVANCE_LOC, CFA_ADVANCE_LOC1, CFA_ADVANCE_LOC2, CFA_ADVANCE_LOC4}
  }

  /** How many code units an advance moves, and the cursor behind its operand. */
  function Delta(m: Mem, opcode: byte, operand: byte, p: int): (r: Outcome<(int, u64)>)
    requires IsAdvance(opcode)
    ensures r.Ok? ==> r.value.0 >= p
  {
    if opcode == CFA_ADVANCE_LOC then Ok((p, operand as u64))
    else
      var width := if opcode == CFA_ADVANCE_LOC1 then 1 else if opcode == CFA_ADVANCE_LOC2 then 2 else 4;
      var delta :- ReadWord(m, p, width);
      Ok((p + width, delta))
  }

  /** The location an instruction moves to: forward by a scaled delta, or anywhere by set_loc. */
  function Moved(m: Mem, cie: Cie, opcode: byte, operand: byte, p: int, loc: u64): (r: Outcome<(int, u64)>)
    requires IsAdvance(opcode) || opcode == CFA_SET_LOC
    ensures r.Ok? ==> r.value.0 >= p
  {
    if opcode == CFA_SET_LOC then
      var (word, q) :- DecodePointer(m, p, cie.pointerEncoding);
      if q >= p then Ok((q, word)) else Fault
    else
      var (q, delta) :- Delta(m, opcode, operand, p);
      Ok((q, Wrap(loc + Product(delta, cie.codeAlignment))))
  }

  /** A number in the program times the data alignment factor, in two's complement. */
  function Scaled(word: u64, alignment: u64): u64 {
    Wrap(Product(word, alignment))
  }

  /** Opcodes that give a register an offset rule; the operand of DW_CFA_offset is the register. */
  predicate IsOffsetRule(opcode: byte) {
    opcode in {CFA_OFFSET, CFA_OFFSET_EXTENDED, CFA_OFFSET_EXTENDED_SF, CFA_VAL_OFFSET, CFA_VAL_OFFSET_SF,
               CFA_GNU_NEGATIVE_OFFSET_EXTENDED}
  }

  function OffsetRule(m: Mem, cie: Cie, opcode: byte, operand: byte, p: int, row: Row): (r: Outcome<(int, Row)>)
    requires IsOffsetRule(opcode)
    ensures r.Ok? ==> r.value.0 >= p
  {
    var (reg, q) :- if opcode == CFA_OFFSET then Ok((operand as u64, p)) else Uleb(m, p);
    var isSigned := opcode == CFA_OFFSET_EXTENDED_SF || opcode == CFA_VAL_OFFSET_SF;
    var (word, q') :- if isSigned then Sleb(m, q) else Uleb(m, q);
    var offset := Scaled(word, cie.dataAlignment);
    var value := if opcode == CFA_GNU_NEGATIVE_OFFSET_EXTENDED then Wrap(0 - (offset as int)) else offset;
    var rule := if opcode in {CFA_VAL_OFFSET, CFA_VAL_OFFSET_SF} then ValOffset else Offset;
    var row' :- row.SetRule(RegisterRule(reg, rule, value));
    Ok((q', row'))
  }

  /** Opcodes that change a rule without an offset, or restore it from the initial row. */
  predicate IsPlainRule(opcode: byte) {
    opcode in {CFA_RESTORE, CFA_RESTORE_EXTENDED, CFA_UNDEFINED, CFA_SAME_VALUE, CFA_REGISTER}
  }

  function PlainRule(m: Mem, opcode: byte, operand: byte, p: int, initial: Row, row: Row): (r: Outcome<(int, Row)>)
    requires IsPlainRule(opcode)
    ensures r.Ok? ==> r.value.0 >= p
  {
    var (reg, q) :- if opcode == CFA_RESTORE then Ok((operand as u64, p)) else Uleb(m, p);
    if opcode == CFA_RESTORE || opcode == CFA_RESTORE_EXTENDED then
      var rule :- initial.GetRule(reg);
      var row' :- row.SetRule(rule);
      Ok((q, row'))
    else if opcode == CFA_REGISTER then
      var (other, q') :- Uleb(m, q);
      var rule :- row.GetRule(other);
      var row' :- row.SetRuleKind(reg, rule.rule);
      Ok((q', row'))
    else
      var row' :- row.SetRuleKind(reg, if opcode == CFA_UNDEFINED then Undefined else SameValue);
      Ok((q, row'))
  }

  predicate IsCfaRule(opcode: byte) {
    || CFA_DEF_CFA <= opcode <= CFA_DEF_CFA_OFFSET
    || opcode in {CFA_DEF_CFA_SF, CFA_DEF_CFA_OFFSET_SF, CFA_GNU_ARGS_SIZE}
  }

  function CfaRule(m: Mem, cie: Cie, opcode: byte, p: int, row: Row): (r: Outcome<(int, Row)>)
    requires IsCfaRule(opcode)
    ensures r.Ok? ==> r.value.0 >= p
  {
    if opcode == CFA_GNU_ARGS_SIZE then
      var (size, q) :- Uleb(m, p);
      Ok((q, row.(argSize := size)))
    else
      var hasRegister := opcode in {CFA_DEF_CFA, CFA_DEF_CFA_REGISTER, CFA_DEF_CFA_SF};
      var (reg, q) :- if hasRegister then Uleb(m, p) else Ok((row.cfa.value, p));
      if opcode == CFA_DEF_CFA_REGISTER then Ok((q, row.(cfa := row.cfa.(value := reg))))
      else
        var isSigned := opcode in {CFA_DEF_CFA_SF, CFA_DEF_CFA_OFFSET_SF};
        var (word, q') :- if isSigned then Sleb(m, q) else Uleb(m, q);
        var offset := if isSigned then Scaled(word, cie.dataAlignment) else word;
        Ok((q', row.(cfa := row.cfa.(value := reg, offset := offset))))
  }

  predicate IsExpressionRule(opcode: byte) {
    opcode in {CFA_DEF_CFA_EXPRESSION, CFA_EXPRESSION, CFA_VAL_EXPRESSION}
  }

  /** Skips a block: its length field is read, and the cursor moves behind the block. */
  function SkipBlock(m: Mem, p: int): (r: Outcome<int>)
    ensures r.Ok? ==> r.value > p
  {
    var (length, q) :- Uleb(m, p);
    if q + length >= TWO64 then Fault else Ok(q + length)
  }

  /** The rule keeps the address of the block; setting a CFA expression leaves the offset. */
  function ExpressionRule(m: Mem, opcode: byte, p: int, row: Row): (r: Outcome<(int, Row)>)
    requires IsExpressionRule(opcode)
    ensures r.Ok? ==> r.value.0 >= p
  {
    if opcode == CFA_DEF_CFA_EXPRESSION then
      var q :- SkipBlock(m, p);
      Ok((q, row.(cfa := row.cfa.(value := Wrap(p), isExpression := true))))
    else
      var (reg, q) :- Uleb(m, p);
      var rule := if opcode == CFA_EXPRESSION then InExpression else ValExpression;
      var row' :- row.SetRule(RegisterRule(reg, rule, Wrap(q)));
      var q' :- SkipBlock(m, q);
      Ok((q', row'))
  }

  /** An instruction that neither moves the location nor uses the remember stack. */
  function RowInstruction(m: Mem, cie: Cie, initial: Row, opcode: byte, operand: byte, p: int,
                          row: Row): (r: Outcome<(int, Row)>)
    ensures r.Ok? ==> r.value.0 >= p
  {
    if opcode == 0 then Ok((p, row))
    else if IsOffsetRule(opcode) then OffsetRule(m, cie, opcode, operand, p, row)
    else if IsPlainRule(opcode) then PlainRule(m, opcode, operand, p, initial, row)
    else if IsCfaRule(opcode) then CfaRule(m, cie, opcode, p, row)
    else if IsExpressionRule(opcode) then ExpressionRule(m, opcode, p, row)
    else Abort
  }

  /** private_parse_instruction. */
  function Step(m: Mem, cie: Cie, initial: Row, s: CfiState): (r: Outcome<CfiState>)
    ensures r.Ok? ==> r.value.p > s.p
    ensures r.Ok? && |s.saved| <= REMEMBER_STACK_SIZE ==> |r.value.saved| <= REMEMBER_STACK_SIZE
  {
    var b :- Read8(m, s.p);
    var opcode := Opcode(b);
    if IsAdvance(opcode) || opcode == CFA_SET_LOC then
      var (q, loc) :- Moved(m, cie, opcode, b % 64, s.p + 1, s.loc);
      Ok(s.(p := q, loc := loc))
    else if opcode == CFA_REMEMBER_STATE then
      if |s.saved| >= REMEMBER_STACK_SIZE then Abort
      else Ok(s.(p := s.p + 1, saved := s.saved + [s.row]))
    else if opcode == CFA_RESTORE_STATE then
      if s.saved == [] then Abort
      else Ok(s.(p := s.p + 1, row := s.saved[|s.saved| - 1], saved := s.saved[..|s.saved| - 1]))
    else
      var (q, row) :- RowInstruction(m, cie, initial, opcode, b % 64, s.p + 1, s.row);
      Ok(s.(p := q, row := row))
  }

  /////////////////////////////////////////////////////////////////////////////
  // The loop and the table
  /////////////////////////////////////////////////////////////////////////////

  /** private_parse_instructions: runs while the program lasts and the location is not past target. */
  function RunTo(m: Mem, cie: Cie, initial: Row, end: int, target: u64, s: CfiState): Outcome<Row>
    decreases if s.p < end then end - s.p else 0
  {
    if s.p < end && target >= s.loc then
      var next :- Step(m, cie, initial, s);
      RunTo(m, cie, initial, end, target, next)
    else Ok(s.row)
  }

  datatype TableRow = TableRow(loc: u64, row: Row)

  /** The instruction at the cursor starts a new row of the table. */
  predicate StartsRow(m: Mem, p: int) {
    p in m && (IsAdvance(Opcode(m[p])) || Opcode(m[p]) == CFA_SET_LOC)
  }

  /**
   The fully expanded table of section 6.4.1: every instruction is run, and each one that
   creates a location closes a row.
   */
  function Table(m: Mem, cie: Cie, initial: Row, end: int, s: CfiState): (t: Outcome<seq<TableRow>>)
    ensures t.Ok? ==> t.value != [] && t.value[0].loc == s.loc
    decreases if s.p < end then end - s.p else 0
  {
    if s.p >= end then Ok([TableRow(s.loc, s.row)])
    else
      var next :- Step(m, cie, initial, s);
      var rest :- Table(m, cie, initial, end, next);
      Ok(if StartsRow(m, s.p) then [TableRow(s.loc, s.row)] + rest else rest)
  }

  /** The index of the first row past target; |t| if there is none. */
  function FirstPast(t: seq<TableRow>, target: u64): (k: nat)
    ensures k <= |t|
    ensures forall j | 0 <= j < k :: t[j].loc <= target
    ensures k < |t| ==> t[k].loc > target
  {
    if t == [] || t[0].loc > target then 0
    else
      var k := FirstPast(t[1..], target) + 1;
      assert forall j | 1 <= j < k :: t[j] == t[1..][j - 1];
      k
  }

  lemma {:induction false} StepKeepsLocation(m: Mem, cie: Cie, initial: Row, s: CfiState)
    requires Step(m, cie, initial, s).Ok?
    ensures if StartsRow(m, s.p) then Step(m, cie, initial, s).value.row == s.row
            else Step(m, cie, initial, s).value.loc == s.loc
  {
  }

  /** The instructions in front of `stop` run, and they are all there are or lead to a row past target. */
  predicate Suffices(m: Mem, cie: Cie, initial: Row, end: int, target: u64, s: CfiState, stop: int) {
    && stop <= end && Table(m, cie, initial, stop, s).Ok?
    && var t := Table(m, cie, initial, stop, s).value;
       stop == end || FirstPast(t, target) < |t|
  }

  /**
   Early stopping, for every target and every program that runs well up to its first row past the
   target, whatever stands behind: the loop returns the row in front of that one, without having
   built the table.
   */
  lemma {:induction false} RunToIsPrefixLookup(m: Mem, cie: Cie, initial: Row, end: int, target: u64, s: CfiState,
                                               stop: int)
    requires Suffices(m, cie, initial, end, target, s, stop)
    ensures RunTo(m, cie, initial, end, target, s).Ok?
    ensures var t := Table(m, cie, initial, stop, s).value;
            var k := FirstPast(t, target);
            k > 0 ==> RunTo(m, cie, initial, end, target, s) == Ok(t[k - 1].row)
    decreases if s.p < end then end - s.p else 0
  {
    if s.p < stop && target >= s.loc {
      var next := Step(m, cie, initial, s).value;
      StepKeepsLocation(m, cie, initial, s);
      RunToIsPrefixLookup(m, cie, initial, end, target, next, stop);
      if StartsRow(m, s.p) && next.loc > target {
        assert RunTo(m, cie, initial, end, target, next) == Ok(next.row);
      }
    }
  }

  /** And only for these: where the loop goes well there is such a part of the program. */
  lemma {:induction false} RunToNeedsPrefix(m: Mem, cie: Cie, initial: Row, end: int, target: u64, s: CfiState)
    returns (stop: int)
    requires RunTo(m, cie, initial, end, target, s).Ok?
    ensures Suffices(m, cie, initial, end, target, s, stop) && (stop == end || s.p <= stop)
    decreases if s.p < end then end - s.p else 0
  {
    if s.p >= end {
      stop := end;
    } else if target < s.loc {
      stop := s.p;
    } else {
      var next := Step(m, cie, initial, s).value;
      StepKeepsLocation(m, cie, initial, s);
      stop := RunToNeedsPrefix(m, cie, initial, end, target, next);
    }
  }

  predicate SortedByLocation(t: seq<TableRow>) {
    forall j, k | 0 <= j < k < |t| :: t[j].loc <= t[k].loc
  }

  /** Row k is the one the table gives for target: the last that does not lie past it. */
  predicate IsLastAtOrBelow(t: seq<TableRow>, target: u64, k: nat) {
    k < |t| && t[k].loc <= target && forall j | k < j < |t| :: t[j].loc > target
  }

  /** Once the table has gone past target it does not come back. */
  predicate NeverComesBack(t: seq<TableRow>, target: u64) {
    forall j, k | 0 <= j < k < |t| && t[j].loc > target :: t[k].loc > target
  }

  /**
   The early-stopping pass returns the row of the table in front of the first one past the
   target, and that is the table's row for the target if and only if the table does not come
   back to the target afterwards.
   */
  lemma {:induction false} EarlyStopExact(m: Mem, cie: Cie, initial: Row, end: int, target: u64, s: CfiState)
    returns (k: nat)
    requires Table(m, cie, initial, end, s).Ok? && s.loc <= target
    ensures var t := Table(m, cie, initial, end, s).value;
            && k < |t| && RunTo(m, cie, initial, end, target, s) == Ok(t[k].row)
            && (IsLastAtOrBelow(t, target, k) <==> NeverComesBack(t, target))
  {
    var t := Table(m, cie, initial, end, s).value;
    RunToIsPrefixLookup(m, cie, initial, end, target, s, end);
    k := FirstPast(t, target) - 1;
  }

  /** In particular it refines the table of every program whose locations never go back. */
  lemma {:induction false} EarlyStopRefinesTable(m: Mem, cie: Cie, initial: Row, end: int, target: u64, s: CfiState)
    returns (k: nat)
    requires Table(m, cie, initial, end, s).Ok? && s.loc <= target
    requires SortedByLocation(Table(m, cie, initial, end, s).value)
    ensures IsLastAtOrBelow(Table(m, cie, initial, end, s).value, target, k)
    ensures RunTo(m, cie, initial, end, target, s) == Ok(Table(m, cie, initial, end, s).value[k].row)
  {
    k := EarlyStopExact(m, cie, initial, end, target, s);
  }

  /** advance_loc 5; same_value r0; set_loc 1 */
  function BackwardProgram(): seq<byte> {
    [0x45, 0x08, 0x00, 0x01, 1, 0, 0, 0, 0, 0, 0, 0]
  }

  /** Its states: at the start, behind the advance, behind same_value, at the end. */
  function BackwardState(p: int, row: Row, k: nat): CfiState
    requires k < 4
  {
    var same := row.(rules := row.rules[0 := row.rules[0].(rule := SameValue)]);
    if k == 0 then Start(p, row)
    else if k == 1 then CfiState(p + 1, 5, row, [])
    else if k == 2 then CfiState(p + 3, 5, same, [])
    else CfiState(p + 12, 1, same, [])
  }

  lemma {:induction false} BackwardSteps(m: Mem, cie: Cie, row: Row, p: int)
    requires cie.codeAlignment == 1 && cie.pointerEncoding == 0 && Holds(m, p, BackwardProgram())
    ensures Step(m, cie, row, BackwardState(p, row, 0)) == Ok(BackwardState(p, row, 1)) && StartsRow(m, p)
    ensures Step(m, cie, row, BackwardState(p, row, 1)) == Ok(BackwardState(p, row, 2)) && !StartsRow(m, p + 1)
    ensures Step(m, cie, row, BackwardState(p, row, 2)) == Ok(BackwardState(p, row, 3)) && StartsRow(m, p + 3)
  {
    var code := BackwardProgram();
    HoldsAt(m, p, code, 0);
    HoldsAt(m, p, code, 1);
    HoldsAt(m, p, code, 2);
    HoldsAt(m, p, code, 3);
    assert Product(5, 0) == 0 && Product(5, 1) == 5;
    assert Digits(m, p + 3, 0) == 0;
    assert Uleb(m, p + 2) == Ok((0, p + 3));
    StoredOne(m, p + 4, p, code);
  }

  /**
   A program that does come back: the table's row for location 1 has the rule set after the
   advance, and the early-stopping pass never gets to it.
   */
  lemma {:induction false} SetLocMissesRow(m: Mem, cie: Cie, row: Row, p: int)
    requires cie.codeAlignment == 1 && cie.pointerEncoding == 0
    requires Holds(m, p, BackwardProgram()) && row.rules[0].rule == Undefined
    ensures var t := Table(m, cie, row, p + 12, Start(p, row));
            && t.Ok? && IsLastAtOrBelow(t.value, 1, 2)
            && RunTo(m, cie, row, p + 12, 1, Start(p, row)) == Ok(row) && row != t.value[2].row
  {
    BackwardSteps(m, cie, row, p);
    var same, end := BackwardState(p, row, 3).row, p + 12;
    assert Table(m, cie, row, end, BackwardState(p, row, 3)) == Ok([TableRow(1, same)]);
    assert Table(m, cie, row, end, BackwardState(p, row, 2)) == Ok([TableRow(5, same)] + [TableRow(1, same)]);
    assert Table(m, cie, row, end, BackwardState(p, row, 1)) == Ok([TableRow(5, same)] + [TableRow(1, same)]);
    assert Table(m, cie, row, end, BackwardState(p, row, 0)) ==
           Ok([TableRow(0, row)] + ([TableRow(5, same)] + [TableRow(1, same)]));
    assert RunTo(m, cie, row, end, 1, BackwardState(p, row, 1)) == Ok(row);
  }

  lemma {:induction false} StoredOne(m: Mem, q: int, p: int, code: seq<byte>)
    requires code == BackwardProgram() && Holds(m, p, code) && q == p + 4
    ensures Read64(m, q) == Ok(1)
  {
    HoldsConcat(m, p, code[..4], code[4..]);
    assert code[..4] + code[4..] == code;
    assert LeBytes(0, 0) == [] && LeBytes(0, 1) == [0] && LeBytes(0, 2) == [0, 0] && LeBytes(0, 3) == [0, 0, 0];
    assert LeBytes(0, 4) == [0] + LeBytes(0, 3) && LeBytes(0, 5) == [0] + LeBytes(0, 4);
    assert LeBytes(0, 6) == [0] + LeBytes(0, 5) && LeBytes(0, 7) == [0] + LeBytes(0, 6);
    assert LeBytes(1, 8) == [1] + LeBytes(0, 7) == code[4..];
    ReadStored64(m, q, 1);
  }

  /** The instruction at the cursor is no set_loc, nor an advance past 2^64 - 1. */
  predicate LocationFits(m: Mem, cie: Cie, s: CfiState) {
    s.p in m ==>
      && Opcode(m[s.p]) != CFA_SET_LOC
      && (IsAdvance(Opcode(m[s.p])) ==>
            match Delta(m, Opcode(m[s.p]), m[s.p] % 64, s.p + 1)
            case Ok((_, delta)) => s.loc + Product(delta, cie.codeAlignment) < TWO64
            case _ => true)
  }

  /** The same for every instruction of the run from s. */
  ghost predicate LocationsFit(m: Mem, cie: Cie, initial: Row, end: int, s: CfiState)
    decreases if s.p < end then end - s.p else 0
  {
    s.p < end ==>
      && LocationFits(m, cie, s)
      && (Step(m, cie, initial, s).Ok? ==> LocationsFit(m, cie, initial, end, Step(m, cie, initial, s).value))
  }

  /** Without set_loc and without wrap-around the table is sorted. */
  lemma {:induction false} FittingLocationsAreSorted(m: Mem, cie: Cie, initial: Row, end: int, s: CfiState)
    requires Table(m, cie, initial, end, s).Ok? && LocationsFit(m, cie, initial, end, s)
    ensures SortedByLocation(Table(m, cie, initial, end, s).value)
    decreases if s.p < end then end - s.p else 0
  {
    if s.p < end {
      var next := Step(m, cie, initial, s).value;
      StepKeepsLocation(m, cie, initial, s);
      FittingLocationsAreSorted(m, cie, initial, end, next);
      var rest := Table(m, cie, initial, end, next).value;
      if StartsRow(m, s.p) {
        assert s.loc <= next.loc == rest[0].loc;
        var t := [TableRow(s.loc, s.row)] + rest;
        assert forall j, k | 0 <= j < k < |t| :: t[j].loc <= t[k].loc;
      }
    }
  }

  /////////////////////////////////////////////////////////////////////////////
  // The remember stack
  /////////////////////////////////////////////////////////////////////////////

  /** The state after n instructions. */
  function After(m: Mem, cie: Cie, initial: Row, s: CfiState, n: nat): Outcome<CfiState>
    decreases n
  {
    if n == 0 then Ok(s)
    else
      var next :- Step(m, cie, initial, s);
      After(m, cie, initial, next, n - 1)
  }

  /** From s on, n instructions run well and more than `depth` rows are remembered throughout. */
  ghost predicate StaysAbove(m: Mem, cie: Cie, initial: Row, s: CfiState, n: nat, depth: nat)
    decreases n
  {
    |s.saved| > depth &&
    (n == 0 || (Step(m, cie, initial, s).Ok? &&
                StaysAbove(m, cie, initial, Step(m, cie, initial, s).value, n - 1, depth)))
  }

  lemma {:induction false} OuterRowsUntouched(m: Mem, cie: Cie, initial: Row, s: CfiState, n: nat, outer: seq<Row>)
    requires outer != [] && outer <= s.saved && StaysAbove(m, cie, initial, s, n, |outer| - 1)
    ensures After(m, cie, initial, s, n).Ok? && outer <= After(m, cie, initial, s, n).value.saved
    decreases n
  {
    if n > 0 {
      OuterRowsUntouched(m, cie, initial, Step(m, cie, initial, s).value, n - 1, outer);
    }
  }

  predicate IsAt(m: Mem, p: int, opcode: byte) {
    p in m && Opcode(m[p]) == opcode
  }

  /**
   A restore_state gives back the whole row that its remember_state saved, across any program
   of n instructions between them in which the nesting never closes; the outer rows are as
   they were, and the location is the one reached meanwhile.
   */
  lemma {:induction false} RestoreMatchesRemember(m: Mem, cie: Cie, initial: Row, s: CfiState, n: nat)
    requires IsAt(m, s.p, CFA_REMEMBER_STATE) && Step(m, cie, initial, s).Ok?
    requires var inner := Step(m, cie, initial, s).value;
             && StaysAbove(m, cie, initial, inner, n, |s.saved|)
             && After(m, cie, initial, inner, n).Ok?
             && var last := After(m, cie, initial, inner, n).value;
                IsAt(m, last.p, CFA_RESTORE_STATE) && |last.saved| == |s.saved| + 1
    ensures var last := After(m, cie, initial, Step(m, cie, initial, s).value, n).value;
            Step(m, cie, initial, last) == Ok(CfiState(last.p + 1, last.loc, s.row, s.saved))
  {
    var inner := Step(m, cie, initial, s).value;
    OuterRowsUntouched(m, cie, initial, inner, n, s.saved + [s.row]);
    assert After(m, cie, initial, inner, n).value.saved == s.saved + [s.row];
  }

  /** However long the program, at most ten rows are remembered. */
  lemma {:induction false} RememberDepth(m: Mem, cie: Cie, initial: Row, s: CfiState, n: nat)
    requires |s.saved| <= 10 && After(m, cie, initial, s, n).Ok?
    ensures |After(m, cie, initial, s, n).value.saved| <= 10
    decreases n
  {
    if n > 0 {
      RememberDepth(m, cie, initial, Step(m, cie, initial, s).value, n - 1);
    }
  }

  /////////////////////////////////////////////////////////////////////////////
  // The row for a location
  /////////////////////////////////////////////////////////////////////////////

  /**
   private_decode_cfi: the CIE's initial instructions run on the default row up to location 0,
   then the FDE's instructions run on the result up to the location of ip.
   */
  function DecodeCfi(m: Mem, fde: Fde, ip: u64): Outcome<Row> {
    var initial :- InitialRow(m, fde.cie);
    RunTo(m, fde.cie, initial, fde.extent.end, Wrap((ip as int) - fde.pcBegin), Start(fde.instructions, initial))
  }

  function InitialRow(m: Mem, cie: Cie): Outcome<Row> {
    RunTo(m, cie, DefaultRow(), cie.extent.end, 0, Start(cie.instructions, DefaultRow()))
  }

  /** The table of an FDE, from its CIE's initial row. */
  function FdeTable(m: Mem, fde: Fde): Outcome<seq<TableRow>> {
    var initial :- InitialRow(m, fde.cie);
    Table(m, fde.cie, initial, fde.extent.end, Start(fde.instructions, initial))
  }

  /** The row used to unwind is the last one of the FDE's table that is not past ip - pc_begin. */
  lemma {:induction false} DecodedRow(m: Mem, fde: Fde, ip: u64, initial: Row) returns (k: nat)
    requires InitialRow(m, fde.cie) == Ok(initial) && FdeTable(m, fde).Ok? && ip >= fde.pcBegin
    requires SortedByLocation(FdeTable(m, fde).value)
    ensures IsLastAtOrBelow(FdeTable(m, fde).value, ip - fde.pcBegin, k)
    ensures DecodeCfi(m, fde, ip) == Ok(FdeTable(m, fde).value[k].row)
  {
    k := EarlyStopRefinesTable(m, fde.cie, initial, fde.extent.end, ip - fde.pcBegin, Start(fde.instructions, initial));
  }
}
