/**
 The DWARF expression machine of dwarf4.cpp (section 2.5 of DWARF 4): a stack machine with
 100 slots and relative branches.

 `Step` gives one iteration of the source's loop on a value that holds only the live part of
 the stack.  Module ExpressionArray runs the same machine on an array whose slots start out
 unwritten.
 */
module Expression {
  import opened Words
  import opened Memory
  import opened Leb128
  import opened Registers
  import opened Loops

  const STACK_SIZE: nat := 100

  const OP_ADDR: int := 0x03
  const OP_DEREF: int := 0x06
  const OP_CONST1U: int := 0x08
  const OP_CONST8S: int := 0x0F
  const OP_CONSTU: int := 0x10
  const OP_CONSTS: int := 0x11
  const OP_DUP: int := 0x12
  const OP_DROP: int := 0x13
  const OP_OVER: int := 0x14
  const OP_PICK: int := 0x15
  const OP_SWAP: int := 0x16
  const OP_ROT: int := 0x17
  const OP_XDEREF: int := 0x18
  const OP_ABS: int := 0x19
  const OP_AND: int := 0x1A
  const OP_MINUS: int := 0x1C
  const OP_MUL: int := 0x1E
  const OP_NEG: int := 0x1F
  const OP_NOT: int := 0x20
  const OP_OR: int := 0x21
  const OP_PLUS: int := 0x22
  const OP_PLUS_UCONST: int := 0x23
  const OP_SHL: int := 0x24
  const OP_SHR: int := 0x25
  const OP_SHRA: int := 0x26
  const OP_XOR: int := 0x27
  const OP_BRA: int := 0x28
  const OP_EQ: int := 0x29
  const OP_GE: int := 0x2A
  const OP_GT: int := 0x2B
  const OP_LE: int := 0x2C
  const OP_LT: int := 0x2D
  const OP_NE: int := 0x2E
  const OP_SKIP: int := 0x2F
  const OP_LIT0: int := 0x30
  const OP_REG0: int := 0x50
  const OP_BREG0: int := 0x70
  const OP_REGX: int := 0x90
  const OP_BREGX: int := 0x92
  const OP_DEREF_SIZE: int := 0x94

  /** The cursor and the live stack, bottom first: the source's stack[0..=i]. */
  datatype ExprState = ExprState(p: int, stack: seq<u64>)

  /** The states the loop can be in: the source's index i is in 0..99. */
  type Machine = s: ExprState | 1 <= |s.stack| <= STACK_SIZE witness ExprState(0, [0])

  /////////////////////////////////////////////////////////////////////////////
  // Operators
  /////////////////////////////////////////////////////////////////////////////

  /** Opcodes that push one word which does not depend on the stack. */
  predicate IsPush(opcode: byte) {
    opcode == OP_ADDR || OP_CONST1U <= opcode <= OP_CONSTS || OP_LIT0 <= opcode <= OP_REGX || opcode == OP_BREGX
  }

  /** The operand width of DW_OP_const1u .. DW_OP_const8s; the odd opcodes are signed. */
  function ConstWidth(opcode: byte): (w: nat)
    requires OP_CONST1U <= opcode <= OP_CONST8S
    ensures w in {1, 2, 4, 8}
  {
    if opcode < 0x0A then 1 else if opcode < 0x0C then 2 else if opcode < 0x0E then 4 else 8
  }

  /** The word a push opcode pushes and the cursor behind its operands. */
  function Pushed(m: Mem, regs: RegisterFile, opcode: byte, p: int): (r: Outcome<(u64, int)>)
    requires IsPush(opcode)
    ensures r.Ok? ==> p <= r.value.1
  {
    if opcode == OP_ADDR then
      var word :- Read64(m, p);
      Ok((word, p + 8))
    else if opcode <= OP_CONST8S then
      var width := ConstWidth(opcode);
      var word :- ReadWord(m, p, width);
      Ok((if opcode % 2 == 0 then word else SignExtend(word, width), p + width))
    else if opcode == OP_CONSTU then Uleb(m, p)
    else if opcode == OP_CONSTS then Sleb(m, p)
    else if opcode < OP_REG0 then Ok((opcode - OP_LIT0, p))
    else if opcode < OP_BREG0 then
      var word :- Get(regs, opcode - OP_REG0);
      Ok((word, p))
    else if opcode < OP_REGX then
      var base :- Get(regs, opcode - OP_BREG0);
      var (offset, q) :- Sleb(m, p);
      var sum :- AddOffset(base, offset);
      Ok((sum, q))
    else if opcode == OP_REGX then
      var (index, q) :- Uleb(m, p);
      var word :- Get(regs, index);
      Ok((word, q))
    else
      var (index, q) :- Uleb(m, p);
      var base :- Get(regs, index);
      var (offset, q') :- Sleb(m, q);
      var sum :- AddOffset(base, offset);
      Ok((sum, q'))
  }

  /** Opcodes that replace the top word. */
  predicate IsUnary(opcode: byte) {
    opcode in {OP_DEREF, OP_ABS, OP_NEG, OP_NOT, OP_PLUS_UCONST, OP_DEREF_SIZE}
  }

  function Unary(m: Mem, opcode: byte, p: int, top: u64): (r: Outcome<(u64, int)>)
    requires IsUnary(opcode)
    ensures r.Ok? ==> p <= r.value.1
  {
    if opcode == OP_DEREF then
      if top == 0 then Abort
      else
        var word :- Read64(m, top);
        Ok((word, p))
    else if opcode == OP_ABS then Ok((if Signed(top) < 0 then Wrap(-Signed(top)) else top, p))
    else if opcode == OP_NEG then Ok((Wrap(0 - Signed(top)), p))
    else if opcode == OP_NOT then Ok((Not64(top), p))
    else if opcode == OP_PLUS_UCONST then
      var (addend, q) :- Uleb(m, p);
      Ok((Wrap(top + addend), q))
    else if top == 0 then Abort
    else
      var size :- Read8(m, p);
      if size in {1, 2, 4, 8} then
        var word :- ReadWord(m, top, size);
        Ok((word, p + 1))
      else Abort
  }

  /** Opcodes that replace the two top words by one. */
  predicate IsBinary(opcode: byte) {
    || opcode in {OP_AND, OP_MINUS, OP_MUL, OP_OR, OP_PLUS, OP_SHL, OP_SHR, OP_SHRA, OP_XOR}
    || OP_EQ <= opcode <= OP_NE
  }

  function Truth(b: bool): u64 {
    if b then 1 else 0
  }

  /** The comparisons are unsigned; a shift by 64 or more has no meaning in C++. */
  function Binary(opcode: byte, lower: u64, top: u64): Outcome<u64>
    requires IsBinary(opcode)
  {
    if opcode == OP_AND then Ok(Bits64(AndGate, lower, top))
    else if opcode == OP_OR then Ok(Bits64(OrGate, lower, top))
    else if opcode == OP_XOR then Ok(Bits64(XorGate, lower, top))
    else if opcode == OP_PLUS then Ok(Wrap(lower + top))
    else if opcode == OP_MINUS then Ok(Wrap((lower as int) - top))
    else if opcode == OP_MUL then Ok(Wrap(Product(lower, top)))
    else if opcode in {OP_SHL, OP_SHR, OP_SHRA} then
      if top >= 64 then Fault
      else Ok(if opcode == OP_SHL then Shl(lower, top) else if opcode == OP_SHR then Shr(lower, top)
              else Shra(lower, top))
    else if opcode == OP_EQ then Ok(Truth(lower == top))
    else if opcode == OP_GE then Ok(Truth(lower >= top))
    else if opcode == OP_GT then Ok(Truth(lower > top))
    else if opcode == OP_LE then Ok(Truth(lower <= top))
    else if opcode == OP_LT then Ok(Truth(lower < top))
    else Ok(Truth(lower != top))
  }

  /** Opcodes that only rearrange the stack. */
  predicate IsShuffle(opcode: byte) {
    OP_DUP <= opcode <= OP_XDEREF
  }

  function Shuffle(m: Mem, opcode: byte, p: int, stack: seq<u64>): (r: Outcome<ExprState>)
    requires IsShuffle(opcode) && 1 <= |stack| < STACK_SIZE
    ensures r.Ok? ==> 1 <= |r.value.stack| <= STACK_SIZE && p <= r.value.p
  {
    var i := |stack| - 1;
    if opcode == OP_DUP then Ok(ExprState(p, stack + [stack[i]]))
    else if opcode == OP_DROP then
      if i == 0 then Abort else Ok(ExprState(p, stack[..i]))
    else if opcode == OP_OVER then
      if i == 0 then Abort else Ok(ExprState(p, stack + [stack[i - 1]]))
    else if opcode == OP_PICK then
      var index :- Read8(m, p);
      if index > i then Abort else Ok(ExprState(p + 1, stack + [stack[i - index]]))
    else if opcode == OP_SWAP then
      if i == 0 then Abort else Ok(ExprState(p, stack[..i - 1] + [stack[i], stack[i - 1]]))
    else if opcode == OP_ROT then
      if i <= 1 then Abort
      else Ok(ExprState(p, stack[..i - 2] + [stack[i], stack[i - 2], stack[i - 1]]))
    else if i == 0 then Abort
    else if stack[i] == 0 then Abort
    else
      var word :- Read64(m, stack[i]);
      Ok(ExprState(p, stack[..i - 1] + [word]))
  }

  /** The signed 16-bit displacement of a branch. */
  function Displacement(m: Mem, p: int): Outcome<int> {
    var word :- Read16(m, p);
    Ok(Signed(SignExtend(word, 2)))
  }

  function Branch(m: Mem, opcode: byte, p: int, stack: seq<u64>): (r: Outcome<ExprState>)
    requires opcode in {OP_SKIP, OP_BRA} && 1 <= |stack| < STACK_SIZE
    ensures r.Ok? ==> 1 <= |r.value.stack| <= STACK_SIZE
  {
    var i := |stack| - 1;
    if opcode == OP_SKIP then
      var d :- Displacement(m, p);
      Ok(ExprState(p + 2 + d, stack))
    else if i == 0 then Abort
    else
      var d :- Displacement(m, p);
      Ok(ExprState(if stack[i] != 0 then p + 2 + d else p + 2, stack[..i]))
  }

  /////////////////////////////////////////////////////////////////////////////
  // The machine
  /////////////////////////////////////////////////////////////////////////////

  /** The switch of the source's loop, with the cursor behind the opcode. */
  function Execute(m: Mem, regs: RegisterFile, opcode: byte, p: int, stack: seq<u64>): (r: Outcome<ExprState>)
    requires 1 <= |stack| < STACK_SIZE
    ensures r.Ok? ==> 1 <= |r.value.stack| <= STACK_SIZE
    ensures r.Ok? && opcode !in {OP_SKIP, OP_BRA} ==> p <= r.value.p
  {
    var i := |stack| - 1;
    if IsPush(opcode) then
      var (word, q) :- Pushed(m, regs, opcode, p);
      Ok(ExprState(q, stack + [word]))
    else if IsUnary(opcode) then
      var (word, q) :- Unary(m, opcode, p, stack[i]);
      Ok(ExprState(q, stack[..i] + [word]))
    else if IsBinary(opcode) then
      if i == 0 then Abort
      else
        var word :- Binary(opcode, stack[i - 1], stack[i]);
        Ok(ExprState(p, stack[..i - 1] + [word]))
    else if IsShuffle(opcode) then Shuffle(m, opcode, p, stack)
    else if opcode in {OP_SKIP, OP_BRA} then Branch(m, opcode, p, stack)
    else Abort
  }

  /** Fetch an opcode, check the stack space, execute. */
  function Step(m: Mem, regs: RegisterFile, s: Machine): Outcome<Machine> {
    var opcode :- Read8(m, s.p);
    if |s.stack| >= STACK_SIZE then Abort
    else Execute(m, regs, opcode, s.p + 1, s.stack)
  }

  /** One iteration of the loop, with its test p <= end. */
  function Iteration(m: Mem, regs: RegisterFile, end: int, s: Machine): Outcome<Control<Machine, u64>> {
    if s.p > end then Ok(Done(s.stack[|s.stack| - 1]))
    else
      var next :- Step(m, regs, s);
      Ok(Next(next))
  }

  function LoopBody(m: Mem, regs: RegisterFile, end: int): Machine -> Outcome<Control<Machine, u64>> {
    (s: Machine) => Iteration(m, regs, end, s)
  }

  function Run(m: Mem, regs: RegisterFile, end: int, s: Machine, fuel: nat): Outcome<u64> {
    Iterate(LoopBody(m, regs, end), s, fuel)
  }

  /**
   private_parse_expression.  The expression p + decode_uleb128(&p) reads and moves p without
   an order in C++; here its left operand is read first, so that `end` counts from the length
   field and the loop test p <= end stops behind the block when that field is one byte.
   */
  function ParseExpression(m: Mem, p: int, initial: u64, regs: RegisterFile, fuel: nat): Outcome<u64> {
    var (length, q) :- Uleb(m, p);
    if p + length >= TWO64 then Fault
    else Run(m, regs, p + length, ExprState(q, [initial]), fuel)
  }

  /** A parse that did not use up its budget has the same outcome with any larger one. */
  lemma {:induction false} ParseFuel(m: Mem, p: int, initial: u64, regs: RegisterFile, fuel: nat, more: nat)
    requires fuel <= more && !ParseExpression(m, p, initial, regs, fuel).Timeout?
    ensures ParseExpression(m, p, initial, regs, more) == ParseExpression(m, p, initial, regs, fuel)
  {
    var header := Uleb(m, p);
    if header.Ok? && p + header.value.0 < TWO64 {
      var s: Machine := ExprState(header.value.1, [initial]);
      MoreFuel(LoopBody(m, regs, p + header.value.0), s, fuel, more);
    }
  }

  /////////////////////////////////////////////////////////////////////////////
  // Termination
  /////////////////////////////////////////////////////////////////////////////

  /** The instruction at p, if it is a branch, does not jump backwards. */
  predicate BranchesForward(m: Mem, p: int) {
    p in m && m[p] in {OP_SKIP, OP_BRA} && Displacement(m, p + 1).Ok? ==> Displacement(m, p + 1).value >= 0
  }

  lemma {:induction false} StepAdvances(m: Mem, regs: RegisterFile, s: Machine)
    requires BranchesForward(m, s.p) && Step(m, regs, s).Ok?
    ensures Step(m, regs, s).value.p > s.p
  {
    var opcode := m[s.p];
    if opcode in {OP_SKIP, OP_BRA} {
      assert !IsPush(opcode) && !IsUnary(opcode) && !IsBinary(opcode) && !IsShuffle(opcode);
    }
  }

  lemma {:induction false} StepNeverTimesOut(m: Mem, regs: RegisterFile, s: Machine)
    ensures !Step(m, regs, s).Timeout?
  {
  }

  /** Every branch executed within the next n steps is a forward one. */
  ghost predicate ForwardRun(m: Mem, regs: RegisterFile, end: int, s: Machine, n: nat)
    decreases n
  {
    n == 0 || s.p > end ||
    (BranchesForward(m, s.p) &&
     (Step(m, regs, s).Ok? ==> ForwardRun(m, regs, end, Step(m, regs, s).value, n - 1)))
  }

  /** Without backward branches the loop ends within end + 1 - p steps and a last test. */
  lemma {:induction false} ForwardHalts(m: Mem, regs: RegisterFile, end: int, s: Machine, n: nat)
    requires end + 1 - s.p <= n && ForwardRun(m, regs, end, s, n)
    ensures !Run(m, regs, end, s, n + 1).Timeout?
    decreases n
  {
    StepNeverTimesOut(m, regs, s);
    if s.p <= end && Step(m, regs, s).Ok? {
      StepAdvances(m, regs, s);
      ForwardHalts(m, regs, end, Step(m, regs, s).value, n - 1);
    }
  }

  /** A block of instructions that holds no backward branch anywhere halts, whatever it computes. */
  lemma {:induction false} ForwardBlockHalts(m: Mem, regs: RegisterFile, end: int, s: Machine)
    requires forall q | s.p <= q <= end :: BranchesForward(m, q)
    ensures !Run(m, regs, end, s, (if s.p <= end then end + 1 - s.p else 0) + 1).Timeout?
  {
    var n := if s.p <= end then end + 1 - s.p else 0;
    ForwardBlock(m, regs, end, s, n);
    ForwardHalts(m, regs, end, s, n);
  }

  lemma {:induction false} ForwardBlock(m: Mem, regs: RegisterFile, end: int, s: Machine, n: nat)
    requires forall q | s.p <= q <= end :: BranchesForward(m, q)
    ensures ForwardRun(m, regs, end, s, n)
    decreases n
  {
    if n > 0 && s.p <= end && Step(m, regs, s).Ok? {
      StepAdvances(m, regs, s);
      ForwardBlock(m, regs, end, Step(m, regs, s).value, n - 1);
    }
  }

  /** Backward branches do matter: DW_OP_skip -3 jumps to itself and uses up every budget. */
  lemma {:induction false} BackwardSkipLoops(m: Mem, regs: RegisterFile, end: int, s: Machine, fuel: nat)
    requires |s.stack| < STACK_SIZE && s.p <= end
    requires Holds(m, s.p, [0x2F, 0xFD, 0xFF])
    ensures Run(m, regs, end, s, fuel) == Timeout
    decreases fuel
  {
    var code: seq<byte> := [0x2F, 0xFD, 0xFF];
    HoldsAt(m, s.p, code, 0);
    HoldsAt(m, s.p, code, 1);
    HoldsAt(m, s.p, code, 2);
    assert ReadLe(m, s.p + 3, 0) == Ok(0) && ReadLe(m, s.p + 2, 1) == Ok(0xFF) && ReadLe(m, s.p + 1, 2) == Ok(0xFFFD);
    assert Displacement(m, s.p + 1) == Ok(-3);
    if fuel > 0 {
      assert Step(m, regs, s) == Ok(s);
      BackwardSkipLoops(m, regs, end, s, fuel - 1);
    }
  }
}
