/**
 Expression trees, their meaning, and their postfix encoding: running the encoding on the
 machine of module Expression computes the meaning.
 */
module ExpressionCompiler {
  import opened Words
  import opened Memory
  import opened Leb128
  import opened Registers
  import opened Loops
  import opened Expression
  import opened Operators

  datatype Expr =
    | Lit(value: nat)                              // DW_OP_lit0 .. DW_OP_lit31
    | Const(opcode: byte, bits: nat)               // DW_OP_const1u .. DW_OP_const8s
    | Addr(word: u64)
    | Constu(word: u64)
    | Consts(word: u64)                            // the two's complement word of the constant
    | Reg(reg: nat)                                // DW_OP_reg0 .. DW_OP_reg31
    | Regx(index: u64)
    | Breg(reg: nat, offset: u64)                  // DW_OP_breg0 .. DW_OP_breg31
    | Bregx(index: u64, offset: u64)
    | PlusUconst(arg: Expr, addend: u64)
    | DerefSize(arg: Expr, size: byte)
    | Apply1(op: byte, arg: Expr)                  // abs, neg, not, deref
    | Apply2(op: byte, left: Expr, right: Expr)    // arithmetic, bitwise, shifts, comparisons

  predicate IsPlainUnary(op: byte) {
    op in {0x06, 0x19, 0x1F, 0x20}
  }

  predicate WellFormed(e: Expr) {
    match e
    case Lit(n) => n < 32
    case Const(opcode, bits) => 0x08 <= opcode <= 0x0F && bits < WordLimit(OperandWidth(opcode))
    case Reg(n) => n < 32
    case Breg(n, _) => n < 32
    case PlusUconst(a, _) => WellFormed(a)
    case DerefSize(a, _) => WellFormed(a)
    case Apply1(op, a) => IsPlainUnary(op) && WellFormed(a)
    case Apply2(op, l, r) => IsOperation(op) && WellFormed(l) && WellFormed(r)
    case _ => true
  }

  /** The bytes behind DW_OP_const1u .. DW_OP_const8s. */
  function OperandWidth(opcode: byte): (w: nat)
    ensures w in {1, 2, 4, 8}
  {
    match opcode
    case 0x08 => 1
    case 0x09 => 1
    case 0x0A => 2
    case 0x0B => 2
    case 0x0C => 4
    case 0x0D => 4
    case _ => 8
  }

  /** What the unary operators mean: DW_OP_deref, DW_OP_abs, DW_OP_neg and DW_OP_not. */
  function UnaryMeaning(m: Mem, op: byte, x: u64): Outcome<u64>
    requires IsPlainUnary(op)
  {
    if op == 0x06 then (if x == 0 then Abort else Read64(m, x))
    else if op == 0x19 then Ok(Wrap(if Signed(x) < 0 then -Signed(x) else Signed(x)))
    else if op == 0x1F then Ok(Wrap(-Signed(x)))
    else Ok(Wrap(-1 - Signed(x)))
  }

  /** What a unary node does with the value of its operand. */
  function OperatorMeaning(m: Mem, e: Expr, x: u64): Outcome<u64>
    requires WellFormed(e) && (e.PlusUconst? || e.DerefSize? || e.Apply1?)
  {
    match e
    case PlusUconst(_, addend) => Ok(Wrap(x + addend))
    case DerefSize(_, size) =>
      if x == 0 then Abort else if size in {1, 2, 4, 8} then ReadWord(m, x, size) else Abort
    case Apply1(op, _) => UnaryMeaning(m, op, x)
  }

  /** The value of a tree; the operands of a binary operator are evaluated left to right. */
  function Eval(m: Mem, regs: RegisterFile, e: Expr): Outcome<u64>
    requires WellFormed(e)
  {
    match e
    case Lit(n) => Ok(n)
    case Const(opcode, bits) => Ok(if opcode % 2 == 0 then bits else SignExtend(bits, OperandWidth(opcode)))
    case Addr(w) => Ok(w)
    case Constu(w) => Ok(w)
    case Consts(w) => Ok(w)
    case Reg(n) => Get(regs, n)
    case Regx(n) => Get(regs, n)
    case Breg(n, offset) => var base :- Get(regs, n); AddOffset(base, offset)
    case Bregx(n, offset) => var base :- Get(regs, n); AddOffset(base, offset)
    case Apply2(op, l, r) =>
      var x :- Eval(m, regs, l);
      var y :- Eval(m, regs, r);
      BinaryMeaning(op, x, y)
    case _ =>
      var x :- Eval(m, regs, e.arg);
      OperatorMeaning(m, e, x)
  }

  function Compile(e: Expr): (code: seq<byte>)
    requires WellFormed(e)
    ensures |code| >= 1
  {
    match e
    case Lit(n) => [0x30 + n]
    case Const(opcode, bits) => [opcode] + LeBytes(bits, OperandWidth(opcode))
    case Addr(w) => [0x03] + LeBytes(w, 8)
    case Constu(w) => [0x10] + EncodeUleb(w)
    case Consts(w) => [0x11] + EncodeSleb(Signed(w))
    case Reg(n) => [0x50 + n]
    case Regx(n) => [0x90] + EncodeUleb(n)
    case Breg(n, offset) => [0x70 + n] + EncodeSleb(Signed(offset))
    case Bregx(n, offset) => [0x92] + (EncodeUleb(n) + EncodeSleb(Signed(offset)))
    case Apply2(op, l, r) => Compile(l) + (Compile(r) + [op])
    case _ => Compile(e.arg) + OperatorCode(e)
  }

  function OperatorCode(e: Expr): (code: seq<byte>)
    requires WellFormed(e) && (e.PlusUconst? || e.DerefSize? || e.Apply1?)
    ensures |code| >= 1
  {
    match e
    case PlusUconst(_, addend) => [0x23] + EncodeUleb(addend)
    case DerefSize(_, size) => [0x94] + [size]
    case Apply1(op, _) => [op]
  }

  /**
   The nodes of a tree in the order of its instructions.  A node stands for its own instruction,
   whatever its operands.
   */
  function Postfix(e: Expr): (nodes: seq<Expr>)
    ensures |nodes| == Length(e) && nodes[|nodes| - 1] == e
    ensures WellFormed(e) ==> AllWellFormed(nodes)
  {
    match e
    case PlusUconst(a, _) => Postfix(a) + [e]
    case DerefSize(a, _) => Postfix(a) + [e]
    case Apply1(_, a) => Postfix(a) + [e]
    case Apply2(_, l, r) => Postfix(l) + Postfix(r) + [e]
    case _ => [e]
  }

  predicate AllWellFormed(nodes: seq<Expr>) {
    forall i | 0 <= i < |nodes| :: WellFormed(nodes[i])
  }

  /** The instruction of a node. */
  function NodeCode(e: Expr): (code: seq<byte>)
    requires WellFormed(e)
    ensures |code| >= 1
  {
    match e
    case PlusUconst(_, _) => OperatorCode(e)
    case DerefSize(_, _) => OperatorCode(e)
    case Apply1(_, _) => OperatorCode(e)
    case Apply2(op, _, _) => [op]
    case _ => Compile(e)
  }

  function Encoder(): Expr -> seq<byte> {
    (e: Expr) => if WellFormed(e) then NodeCode(e) else []
  }

  function Mapped<T, U>(f: T -> U, s: seq<T>): (r: seq<U>)
    ensures |r| == |s| && forall i | 0 <= i < |s| :: r[i] == f(s[i])
  {
    seq(|s|, i requires 0 <= i < |s| => f(s[i]))
  }

  function Codes(nodes: seq<Expr>): (codes: seq<seq<byte>>)
    ensures |codes| == |nodes|
  {
    Mapped(Encoder(), nodes)
  }

  /** Instructions one behind the other. */
  function Flat(codes: seq<seq<byte>>): seq<byte> {
    if codes == [] then [] else codes[0] + Flat(codes[1..])
  }

  lemma {:induction false} FlatConcat(a: seq<seq<byte>>, b: seq<seq<byte>>)
    ensures Flat(a + b) == Flat(a) + Flat(b)
    decreases |a|
  {
    if a == [] {
      assert a + b == b;
    } else {
      assert (a + b)[1..] == a[1..] + b;
      FlatConcat(a[1..], b);
    }
  }

  lemma {:induction false} FlatOne(code: seq<byte>)
    ensures Flat([code]) == code
  {
    assert [code][1..] == [];
  }

  /** The instructions in front of the last. */
  lemma {:induction false} FlatLast(codes: seq<seq<byte>>, j: nat)
    requires j < |codes|
    ensures |Flat(codes[..j])| + |codes[|codes| - 1]| <= |Flat(codes)|
  {
    var last := codes[|codes| - 1];
    assert codes == codes[..j] + codes[j..|codes| - 1] + [last];
    FlatOne(last);
    FlatConcat(codes[..j], codes[j..|codes| - 1]);
    FlatConcat(codes[..j] + codes[j..|codes| - 1], [last]);
  }

  lemma {:induction false} FlatMapped<T>(f: T -> seq<byte>, a: seq<T>, b: seq<T>)
    ensures Flat(Mapped(f, a + b)) == Flat(Mapped(f, a)) + Flat(Mapped(f, b))
  {
    assert Mapped(f, a + b) == Mapped(f, a) + Mapped(f, b);
    FlatConcat(Mapped(f, a), Mapped(f, b));
  }

  lemma {:induction false} FlatMappedOne<T>(f: T -> seq<byte>, x: T)
    ensures Flat(Mapped(f, [x])) == f(x)
  {
    assert Mapped(f, [x]) == [f(x)];
    FlatOne(f(x));
  }

  /** The encoding of a tree is that of its nodes, one behind the other. */
  lemma {:induction false} CompileIsFlat(e: Expr)
    requires WellFormed(e)
    ensures Compile(e) == Flat(Codes(Postfix(e)))
  {
    if e.Apply2? {
      CompileIsFlat(e.left);
      CompileIsFlat(e.right);
      BinaryIsFlat(e);
    } else if IsLeaf(e) {
      LeafIsFlat(e);
    } else {
      CompileIsFlat(e.arg);
      UnaryIsFlat(e);
    }
  }

  lemma {:induction false} BinaryIsFlat(e: Expr)
    requires WellFormed(e) && e.Apply2?
    requires Compile(e.left) == Flat(Codes(Postfix(e.left))) && Compile(e.right) == Flat(Codes(Postfix(e.right)))
    ensures Compile(e) == Flat(Codes(Postfix(e)))
  {
    var f, a, b := Encoder(), Postfix(e.left), Postfix(e.right);
    FlatMapped(f, a, b);
    FlatMapped(f, a + b, [e]);
    FlatMappedOne(f, e);
    OperatorBehind(Compile(e.left), Compile(e.right), [e.op]);
  }

  lemma {:induction false} OperatorBehind(x: seq<byte>, y: seq<byte>, z: seq<byte>)
    ensures x + (y + z) == (x + y) + z && x + y + z == x + (y + z)
  {
  }

  lemma {:induction false} UnaryIsFlat(e: Expr)
    requires WellFormed(e) && !IsLeaf(e) && !e.Apply2? && Compile(e.arg) == Flat(Codes(Postfix(e.arg)))
    ensures Compile(e) == Flat(Codes(Postfix(e)))
  {
    FlatMapped(Encoder(), Postfix(e.arg), [e]);
    FlatMappedOne(Encoder(), e);
  }

  lemma {:induction false} LeafIsFlat(e: Expr)
    requires WellFormed(e) && IsLeaf(e)
    ensures Compile(e) == Flat(Codes(Postfix(e)))
  {
    FlatMappedOne(Encoder(), e);
  }

  /** The number of instructions in the encoding. */
  function Length(e: Expr): (n: nat)
    ensures n >= 1
  {
    match e
    case PlusUconst(a, _) => Length(a) + 1
    case DerefSize(a, _) => Length(a) + 1
    case Apply1(_, a) => Length(a) + 1
    case Apply2(_, l, r) => Length(l) + Length(r) + 1
    case _ => 1
  }

  /** The most words the encoding has on the stack, above what it found, at an opcode fetch. */
  function Depth(e: Expr): nat {
    match e
    case PlusUconst(a, _) => Max(Depth(a), 1)
    case DerefSize(a, _) => Max(Depth(a), 1)
    case Apply1(_, a) => Max(Depth(a), 1)
    case Apply2(_, l, r) => Max(Depth(l), Max(Depth(r) + 1, 2))
    case _ => 0
  }

  function Max(a: nat, b: nat): nat {
    if a > b then a else b
  }

  type LoopBodyFunction = Machine -> Outcome<Control<Machine, u64>>

  /** The state in which a tree's value is on top of the stack and the cursor `width` further. */
  function Finished(s: ExprState, width: nat, value: Outcome<u64>): Outcome<Control<Machine, u64>>
    requires 1 <= |s.stack| < STACK_SIZE
  {
    var word :- value;
    Ok(Next(ExprState(s.p + width, s.stack + [word])))
  }

  lemma {:induction false} EvalNeverTimesOut(m: Mem, regs: RegisterFile, e: Expr)
    requires WellFormed(e)
    ensures !Eval(m, regs, e).Timeout?
  {
    match e
    case PlusUconst(a, _) => EvalNeverTimesOut(m, regs, a);
    case DerefSize(a, _) => EvalNeverTimesOut(m, regs, a);
    case Apply1(_, a) => EvalNeverTimesOut(m, regs, a);
    case Apply2(_, l, r) => EvalNeverTimesOut(m, regs, l); EvalNeverTimesOut(m, regs, r);
    case _ =>
  }

  predicate IsLeaf(e: Expr) {
    !e.PlusUconst? && !e.DerefSize? && !e.Apply1? && !e.Apply2?
  }

  /** The machine decodes the encoding of a leaf at p to the leaf's meaning. */
  ghost predicate Decodes(m: Mem, regs: RegisterFile, p: int, e: Expr)
    requires WellFormed(e)
  {
    var opcode := Compile(e)[0];
    && Read8(m, p) == Ok(opcode)
    && IsPush(opcode)
    && match Eval(m, regs, e)
       case Ok(word) => Pushed(m, regs, opcode, p + 1) == Ok((word, p + |Compile(e)|))
       case Abort => Pushed(m, regs, opcode, p + 1) == Abort
       case Fault => Pushed(m, regs, opcode, p + 1) == Fault
       case Timeout => false
  }

  lemma {:induction false} ConstDecodes(m: Mem, regs: RegisterFile, p: int, e: Expr)
    requires WellFormed(e) && (e.Const? || e.Addr?) && Holds(m, p, Compile(e))
    ensures Decodes(m, regs, p, e)
  {
    if e.Const? {
      HeadAndRest(m, p, e.opcode, LeBytes(e.bits, OperandWidth(e.opcode)));
      ReadStoredWord(m, p + 1, e.bits, OperandWidth(e.opcode));
    } else {
      HeadAndRest(m, p, OP_ADDR, LeBytes(e.word, 8));
      ReadStored64(m, p + 1, e.word);
    }
  }

  lemma {:induction false} NumberDecodes(m: Mem, regs: RegisterFile, p: int, e: Expr)
    requires WellFormed(e) && (e.Constu? || e.Consts? || e.Regx?) && Holds(m, p, Compile(e))
    ensures Decodes(m, regs, p, e)
  {
    match e
    case Constu(w) =>
      HeadAndRest(m, p, OP_CONSTU, EncodeUleb(w));
      UlebRoundTrip(m, p + 1, w);
    case Consts(w) =>
      HeadAndRest(m, p, OP_CONSTS, EncodeSleb(Signed(w)));
      SlebRoundTrip(m, p + 1, w);
    case Regx(n) =>
      HeadAndRest(m, p, OP_REGX, EncodeUleb(n));
      UlebRoundTrip(m, p + 1, n);
  }

  lemma {:induction false} BregDecodes(m: Mem, regs: RegisterFile, p: int, e: Expr)
    requires WellFormed(e) && e.Breg? && Holds(m, p, Compile(e))
    ensures Decodes(m, regs, p, e)
  {
    HeadAndRest(m, p, OP_BREG0 + e.reg, EncodeSleb(Signed(e.offset)));
    SlebRoundTrip(m, p + 1, e.offset);
  }

  lemma {:induction false} BregxDecodes(m: Mem, regs: RegisterFile, p: int, e: Expr)
    requires WellFormed(e) && e.Bregx? && Holds(m, p, Compile(e))
    ensures Decodes(m, regs, p, e)
  {
    var index, offset := EncodeUleb(e.index), EncodeSleb(Signed(e.offset));
    HeadAndRest(m, p, OP_BREGX, index + offset);
    HoldsConcat(m, p + 1, index, offset);
    UlebRoundTrip(m, p + 1, e.index);
    SlebRoundTrip(m, p + 1 + |index|, e.offset);
  }

  lemma {:induction false} LeafDecodes(m: Mem, regs: RegisterFile, p: int, e: Expr)
    requires WellFormed(e) && IsLeaf(e) && Holds(m, p, Compile(e))
    ensures Decodes(m, regs, p, e)
  {
    HoldsAt(m, p, Compile(e), 0);
    if e.Const? || e.Addr? {
      ConstDecodes(m, regs, p, e);
    } else if e.Breg? {
      BregDecodes(m, regs, p, e);
    } else if e.Bregx? {
      BregxDecodes(m, regs, p, e);
    } else if !e.Lit? && !e.Reg? {
      NumberDecodes(m, regs, p, e);
    }
  }

  /////////////////////////////////////////////////////////////////////////////
  // Single instructions
  /////////////////////////////////////////////////////////////////////////////

  type Stack = s: seq<u64> | 1 <= |s| <= STACK_SIZE witness [0]

  /** What the instruction of a node does with the stack. */
  function NodeStep(m: Mem, regs: RegisterFile, e: Expr, stack: Stack): Outcome<Stack>
    requires WellFormed(e)
  {
    var i := |stack| - 1;
    if |stack| == STACK_SIZE then Abort
    else if IsLeaf(e) then
      var word :- Eval(m, regs, e);
      Ok(stack + [word])
    else if e.Apply2? then
      if i == 0 then Abort
      else
        var word :- BinaryMeaning(e.op, stack[i - 1], stack[i]);
        Ok(stack[..i - 1] + [word])
    else
      var word :- OperatorMeaning(m, e, stack[i]);
      Ok(stack[..i] + [word])
  }

  /** The state behind an instruction that takes `width` bytes. */
  function Behind(s: Machine, width: nat, stack: Outcome<Stack>): Outcome<Machine> {
    var next :- stack;
    Ok(ExprState(s.p + width, next))
  }

  /** A value on top of the stack. */
  function WithTop(stack: Stack, value: Outcome<u64>): Outcome<Stack>
    requires |stack| < STACK_SIZE
  {
    var word :- value;
    Ok(stack + [word])
  }

  lemma {:induction false} PushStep(m: Mem, regs: RegisterFile, s: Machine, opcode: byte, width: nat,
                                    value: Outcome<u64>)
    requires |s.stack| < STACK_SIZE && Read8(m, s.p) == Ok(opcode) && IsPush(opcode)
    requires Pushed(m, regs, opcode, s.p + 1) == (var word :- value; Ok((word, s.p + width)))
    ensures Step(m, regs, s) == Behind(s, width, WithTop(s.stack, value))
  {
    assert Step(m, regs, s) == Execute(m, regs, opcode, s.p + 1, s.stack);
  }

  lemma {:induction false} LeafStep(m: Mem, regs: RegisterFile, s: Machine, e: Expr)
    requires |s.stack| < STACK_SIZE && WellFormed(e) && IsLeaf(e) && Holds(m, s.p, Compile(e))
    ensures Step(m, regs, s) == Behind(s, |Compile(e)|, WithTop(s.stack, Eval(m, regs, e)))
  {
    LeafDecodes(m, regs, s.p, e);
    PushStep(m, regs, s, Compile(e)[0], |Compile(e)|, Eval(m, regs, e));
  }

  /** The word that an instruction puts in the place of the top. */
  function Topped(s: Machine, width: nat, value: Outcome<u64>): Outcome<Machine> {
    var word :- value;
    Ok(ExprState(s.p + width, s.stack[..|s.stack| - 1] + [word]))
  }

  lemma {:induction false} UnaryStep(m: Mem, regs: RegisterFile, s: Machine, opcode: byte, width: nat,
                                     value: Outcome<u64>)
    requires |s.stack| < STACK_SIZE && Read8(m, s.p) == Ok(opcode) && IsUnary(opcode)
    requires Unary(m, opcode, s.p + 1, s.stack[|s.stack| - 1]) == (var word :- value; Ok((word, s.p + width)))
    ensures Step(m, regs, s) == Topped(s, width, value)
  {
    assert Step(m, regs, s) == Execute(m, regs, opcode, s.p + 1, s.stack);
  }

  lemma {:induction false} UnaryMeans(m: Mem, op: byte, p: int, x: u64)
    requires IsPlainUnary(op)
    ensures Unary(m, op, p, x) == (var word :- UnaryMeaning(m, op, x); Ok((word, p)))
  {
    if op == OP_ABS && Signed(x) >= 0 {
      WrapSigned(x);
    } else if op == OP_NOT {
      assert Wrap(-1 - Signed(x)) == Not64(x);
    }
  }

  lemma {:induction false} OperatorStep(m: Mem, regs: RegisterFile, s: Machine, e: Expr)
    requires |s.stack| < STACK_SIZE && WellFormed(e) && !IsLeaf(e) && !e.Apply2? && Holds(m, s.p, OperatorCode(e))
    ensures Step(m, regs, s) == Topped(s, |OperatorCode(e)|, OperatorMeaning(m, e, s.stack[|s.stack| - 1]))
  {
    var x := s.stack[|s.stack| - 1];
    var width, meaning := |OperatorCode(e)|, OperatorMeaning(m, e, x);
    match e
    case PlusUconst(_, addend) =>
      HeadAndRest(m, s.p, OP_PLUS_UCONST, EncodeUleb(addend));
      UlebRoundTrip(m, s.p + 1, addend);
      UnaryStep(m, regs, s, OP_PLUS_UCONST, width, meaning);
    case DerefSize(_, size) =>
      HeadAndRest(m, s.p, OP_DEREF_SIZE, [size]);
      HoldsAt(m, s.p + 1, [size], 0);
      UnaryStep(m, regs, s, OP_DEREF_SIZE, width, meaning);
    case Apply1(op, _) =>
      HoldsAt(m, s.p, [op], 0);
      UnaryMeans(m, op, s.p + 1, x);
      UnaryStep(m, regs, s, op, width, meaning);
  }

  /** `f` is the operator of opcode op.  The trigger keeps its definition out of the proofs. */
  ghost predicate IsOperator(f: (u64, u64) -> Outcome<u64>, op: byte) {
    && IsOperation(op)
    && forall x, y {:trigger BinaryMeaning(op, x, y)} :: f(x, y) == BinaryMeaning(op, x, y)
  }

  /** The word that an instruction puts in the place of the two on top. */
  function Combined(s: Machine, value: Outcome<u64>): Outcome<Machine>
    requires |s.stack| > 1
  {
    var word :- value;
    Ok(ExprState(s.p + 1, s.stack[..|s.stack| - 2] + [word]))
  }

  lemma {:induction false} BinaryStep(m: Mem, regs: RegisterFile, s: Machine, opcode: byte,
                                      f: (u64, u64) -> Outcome<u64>)
    requires 1 < |s.stack| < STACK_SIZE && Read8(m, s.p) == Ok(opcode) && IsOperator(f, opcode)
    ensures Step(m, regs, s) == Combined(s, f(s.stack[|s.stack| - 2], s.stack[|s.stack| - 1]))
  {
    var i := |s.stack| - 1;
    assert f(s.stack[i - 1], s.stack[i]) == BinaryMeaning(opcode, s.stack[i - 1], s.stack[i]);
    BinaryMeans(opcode, s.stack[i - 1], s.stack[i]);
    assert Step(m, regs, s) == Execute(m, regs, opcode, s.p + 1, s.stack);
  }

  lemma {:induction false} LonelyBinary(m: Mem, regs: RegisterFile, s: Machine, opcode: byte)
    requires |s.stack| == 1 && Read8(m, s.p) == Ok(opcode) && IsOperation(opcode)
    ensures Step(m, regs, s) == Abort
  {
    BinaryMeans(opcode, 0, 0);
    assert Step(m, regs, s) == Execute(m, regs, opcode, s.p + 1, s.stack);
  }

  /** The machine runs the instruction of a node at its cursor. */
  lemma {:induction false} NodeRuns(m: Mem, regs: RegisterFile, s: Machine, e: Expr)
    requires WellFormed(e) && Holds(m, s.p, NodeCode(e))
    ensures Step(m, regs, s) == Behind(s, |NodeCode(e)|, NodeStep(m, regs, e, s.stack))
  {
    HoldsAt(m, s.p, NodeCode(e), 0);
    if |s.stack| < STACK_SIZE {
      if IsLeaf(e) {
        LeafStep(m, regs, s, e);
      } else if !e.Apply2? {
        OperatorStep(m, regs, s, e);
      } else if |s.stack| == 1 {
        LonelyBinary(m, regs, s, e.op);
      } else {
        BinaryStep(m, regs, s, e.op, (x, y) => BinaryMeaning(e.op, x, y));
      }
    }
  }

  /////////////////////////////////////////////////////////////////////////////
  // Runs of instructions
  /////////////////////////////////////////////////////////////////////////////

  type StepFunction = (Expr, Stack) -> Outcome<Stack>

  /** What the nodes of a tree do, one by one. */
  function NodeSteps(m: Mem, regs: RegisterFile): StepFunction {
    (e: Expr, stack: Stack) => if WellFormed(e) then NodeStep(m, regs, e, stack) else Abort
  }

  /** The stack behind a sequence of nodes. */
  function Stacked(step: StepFunction, nodes: seq<Expr>, stack: Stack): Outcome<Stack>
    decreases |nodes|
  {
    if nodes == [] then Ok(stack)
    else
      var next :- step(nodes[0], stack);
      Stacked(step, nodes[1..], next)
  }

  lemma {:induction false} StackedConcat(step: StepFunction, a: seq<Expr>, b: seq<Expr>, stack: Stack)
    ensures Stacked(step, a + b, stack) == (var next :- Stacked(step, a, stack); Stacked(step, b, next))
    decreases |a|
  {
    if a == [] {
      assert a + b == b;
    } else {
      assert (a + b)[1..] == a[1..] + b;
      var next := step(a[0], stack);
      if next.Ok? {
        StackedConcat(step, a[1..], b, next.value);
      }
    }
  }

  lemma {:induction false} StackedOne(step: StepFunction, e: Expr, stack: Stack)
    ensures Stacked(step, [e], stack) == step(e, stack)
  {
    assert [e][1..] == [];
  }

  function After(next: Outcome<Machine>): Outcome<Control<Machine, u64>> {
    var s :- next;
    Ok(Next(s))
  }

  /** The loop runs the instruction of e, wherever it stands within the block, as `step` says. */
  ghost predicate RunsAs(body: LoopBodyFunction, m: Mem, end: int, step: StepFunction, e: Expr, code: seq<byte>) {
    forall s: Machine {:trigger step(e, s.stack)} | s.p <= end && Holds(m, s.p, code) ::
      Leads(body, s, 1, After(Behind(s, |code|, step(e, s.stack))))
  }

  lemma {:induction false} NodeRunsAs(m: Mem, regs: RegisterFile, end: int, e: Expr)
    requires WellFormed(e)
    ensures RunsAs(LoopBody(m, regs, end), m, end, NodeSteps(m, regs), e, NodeCode(e))
  {
    var body, step := LoopBody(m, regs, end), NodeSteps(m, regs);
    forall s: Machine {:trigger step(e, s.stack)} | s.p <= end && Holds(m, s.p, NodeCode(e))
      ensures Leads(body, s, 1, After(Behind(s, |NodeCode(e)|, step(e, s.stack))))
    {
      NodeRuns(m, regs, s, e);
      assert body(s) == Iteration(m, regs, end, s);
      OneIteration(body, s);
    }
  }

  /** `codes` are the instructions of the nodes. */
  ghost predicate AllRunAs(body: LoopBodyFunction, m: Mem, end: int, step: StepFunction, nodes: seq<Expr>,
                           codes: seq<seq<byte>>) {
    && |codes| == |nodes|
    && forall i {:trigger RunsAs(body, m, end, step, nodes[i], codes[i])} | 0 <= i < |nodes| ::
         RunsAs(body, m, end, step, nodes[i], codes[i])
  }

  /** Each turn of the loop runs the node that its instruction stands for. */
  ghost predicate TurnsRunAs(m: Mem, regs: RegisterFile, end: int, step: StepFunction, nodes: seq<Expr>,
                             codes: seq<seq<byte>>)
  {
    AllRunAs(LoopBody(m, regs, end), m, end, step, nodes, codes)
  }

  lemma {:induction false} TreeRunsAs(m: Mem, regs: RegisterFile, end: int, e: Expr, nodes: seq<Expr>,
                                      codes: seq<seq<byte>>)
    requires WellFormed(e) && nodes == Postfix(e) && codes == Codes(nodes)
    ensures TurnsRunAs(m, regs, end, NodeSteps(m, regs), nodes, codes)
  {
    forall i {:trigger RunsAs(LoopBody(m, regs, end), m, end, NodeSteps(m, regs), nodes[i], codes[i])}
      | 0 <= i < |nodes|
      ensures RunsAs(LoopBody(m, regs, end), m, end, NodeSteps(m, regs), nodes[i], codes[i])
    {
      NodeRunsAs(m, regs, end, nodes[i]);
      assert codes[i] == NodeCode(nodes[i]);
    }
  }

  lemma {:induction false} RestRunsAs(body: LoopBodyFunction, m: Mem, end: int, step: StepFunction,
                                      nodes: seq<Expr>, codes: seq<seq<byte>>)
    requires AllRunAs(body, m, end, step, nodes, codes) && nodes != []
    ensures AllRunAs(body, m, end, step, nodes[1..], codes[1..])
  {
    forall i {:trigger RunsAs(body, m, end, step, nodes[1..][i], codes[1..][i])} | 0 <= i < |nodes[1..]|
      ensures RunsAs(body, m, end, step, nodes[1..][i], codes[1..][i])
    {
      assert RunsAs(body, m, end, step, nodes[i + 1], codes[i + 1]);
    }
  }

  lemma {:induction false} FirstRunAs(body: LoopBodyFunction, m: Mem, end: int, step: StepFunction,
                                      nodes: seq<Expr>, codes: seq<seq<byte>>, j: nat)
    requires AllRunAs(body, m, end, step, nodes, codes) && j <= |nodes|
    ensures AllRunAs(body, m, end, step, nodes[..j], codes[..j])
  {
    forall i {:trigger RunsAs(body, m, end, step, nodes[..j][i], codes[..j][i])} | 0 <= i < |nodes[..j]|
      ensures RunsAs(body, m, end, step, nodes[..j][i], codes[..j][i])
    {
      assert RunsAs(body, m, end, step, nodes[i], codes[i]);
    }
  }

  /** The last of the instructions, written from p on, starts within the block. */
  predicate StartsWithin(codes: seq<seq<byte>>, p: int, end: int) {
    codes == [] || p + |Flat(codes)| - |codes[|codes| - 1]| <= end
  }

  /** The loop runs a sequence of nodes that all start within the block. */
  lemma {:induction false} RunNodes(body: LoopBodyFunction, m: Mem, end: int, step: StepFunction, s: Machine,
                                    nodes: seq<Expr>, codes: seq<seq<byte>>)
    requires AllRunAs(body, m, end, step, nodes, codes)
    requires Holds(m, s.p, Flat(codes)) && StartsWithin(codes, s.p, end)
    ensures Leads(body, s, |nodes|, After(Behind(s, |Flat(codes)|, Stacked(step, nodes, s.stack))))
    decreases |nodes|
  {
    if nodes != [] {
      var e, code, rest := nodes[0], codes[0], codes[1..];
      FlatLast(codes, 0);
      HoldsConcat(m, s.p, code, Flat(rest));
      assert RunsAs(body, m, end, step, nodes[0], codes[0]);
      RestRunsAs(body, m, end, step, nodes, codes);
      var next := step(e, s.stack);
      assert Leads(body, s, 1, After(Behind(s, |code|, next)));
      if next.Ok? {
        var t: Machine := ExprState(s.p + |code|, next.value);
        assert rest != [] ==> codes[|codes| - 1] == rest[|rest| - 1];
        RunNodes(body, m, end, step, t, nodes[1..], rest);
        LeadsOn<Machine, u64>(body, s, 1, t, |rest|,
                              After(Behind(t, |Flat(rest)|, Stacked(step, nodes[1..], t.stack))));
      } else {
        LeadsToFailure<Machine, u64>(body, s, 1, |rest|, After(Behind(s, |code|, next)));
      }
    }
  }

  /////////////////////////////////////////////////////////////////////////////
  // Correctness of the encoding
  /////////////////////////////////////////////////////////////////////////////

  predicate IsError<T>(r: Outcome<T>) {
    r.Abort? || r.Fault?
  }

  /** `step` is what nodes do.  The trigger keeps their meaning out of the proofs about trees. */
  ghost predicate IsStep(step: StepFunction, m: Mem, regs: RegisterFile) {
    forall e: Expr, stack: Stack {:trigger NodeStep(m, regs, e, stack)} | WellFormed(e) ::
      step(e, stack) == NodeStep(m, regs, e, stack)
  }

  /** A tree that fits on the stack leaves its value there, and any other ends in an error. */
  predicate TreeStacked(m: Mem, regs: RegisterFile, e: Expr, stack: Stack, r: Outcome<Stack>)
    requires WellFormed(e)
  {
    if |stack| + Depth(e) < 100 then r == WithTop(stack, Eval(m, regs, e)) else IsError(r)
  }

  lemma {:induction false} TreeOnStack(m: Mem, regs: RegisterFile, step: StepFunction, e: Expr, stack: Stack)
    requires IsStep(step, m, regs) && WellFormed(e)
    ensures TreeStacked(m, regs, e, stack, Stacked(step, Postfix(e), stack))
    decreases e, 2
  {
    if IsLeaf(e) {
      StackedOne(step, e, stack);
      assert step(e, stack) == NodeStep(m, regs, e, stack);
    } else if e.Apply2? {
      PairOnStack(m, regs, step, e, stack);
    } else {
      ArgumentOnStack(m, regs, step, e, stack);
    }
  }

  /** Both operands and the operator. */
  lemma {:induction false} PairOnStack(m: Mem, regs: RegisterFile, step: StepFunction, e: Expr, stack: Stack)
    requires IsStep(step, m, regs) && WellFormed(e) && e.Apply2?
    ensures TreeStacked(m, regs, e, stack, Stacked(step, Postfix(e), stack))
    decreases e, 1
  {
    StackedConcat(step, Postfix(e.left) + Postfix(e.right), [e], stack);
    StackedConcat(step, Postfix(e.left), Postfix(e.right), stack);
    TreeOnStack(m, regs, step, e.left, stack);
    EvalNeverTimesOut(m, regs, e.left);
    var left := Stacked(step, Postfix(e.left), stack);
    if left.Ok? {
      RightOnStack(m, regs, step, e, stack, Eval(m, regs, e.left).value);
    }
  }

  /** The operand and the operator. */
  lemma {:induction false} ArgumentOnStack(m: Mem, regs: RegisterFile, step: StepFunction, e: Expr, stack: Stack)
    requires IsStep(step, m, regs) && WellFormed(e) && !IsLeaf(e) && !e.Apply2?
    ensures TreeStacked(m, regs, e, stack, Stacked(step, Postfix(e), stack))
    decreases e, 1
  {
    StackedConcat(step, Postfix(e.arg), [e], stack);
    TreeOnStack(m, regs, step, e.arg, stack);
    EvalNeverTimesOut(m, regs, e.arg);
    if Stacked(step, Postfix(e.arg), stack).Ok? {
      OperatorOnStack(m, regs, step, e, stack, Eval(m, regs, e.arg).value);
    }
  }

  /** The operator, on the operand's value. */
  lemma {:induction false} OperatorOnStack(m: Mem, regs: RegisterFile, step: StepFunction, e: Expr, stack: Stack,
                                           x: u64)
    requires IsStep(step, m, regs) && WellFormed(e) && !IsLeaf(e) && !e.Apply2?
    requires Eval(m, regs, e.arg) == Ok(x) && |stack| + Depth(e.arg) < STACK_SIZE
    ensures TreeStacked(m, regs, e, stack, Stacked(step, [e], stack + [x]))
  {
    StackedOne(step, e, stack + [x]);
    assert step(e, stack + [x]) == NodeStep(m, regs, e, stack + [x]);
    assert (stack + [x])[..|stack|] == stack;
  }

  /** The right operand and the operator, on the left operand's value. */
  lemma {:induction false} RightOnStack(m: Mem, regs: RegisterFile, step: StepFunction, e: Expr, stack: Stack, x: u64)
    requires IsStep(step, m, regs) && WellFormed(e) && e.Apply2? && |stack| < STACK_SIZE
    requires Eval(m, regs, e.left) == Ok(x)
    requires |stack| + Depth(e.left) < STACK_SIZE
    ensures var right := Stacked(step, Postfix(e.right), stack + [x]);
            TreeStacked(m, regs, e, stack, (var next :- right; Stacked(step, [e], next)))
    decreases e, 0
  {
    TreeOnStack(m, regs, step, e.right, stack + [x]);
    EvalNeverTimesOut(m, regs, e.right);
    if Stacked(step, Postfix(e.right), stack + [x]).Ok? {
      BothOnStack(m, regs, step, e, stack, x, Eval(m, regs, e.right).value);
    }
  }

  /** The operator, on the operands' values. */
  lemma {:induction false} BothOnStack(m: Mem, regs: RegisterFile, step: StepFunction, e: Expr, stack: Stack, x: u64,
                                       y: u64)
    requires IsStep(step, m, regs) && WellFormed(e) && e.Apply2?
    requires Eval(m, regs, e.left) == Ok(x) && |stack| + Depth(e.left) < STACK_SIZE
    requires Eval(m, regs, e.right) == Ok(y) && |stack| + 1 + Depth(e.right) < STACK_SIZE
    ensures TreeStacked(m, regs, e, stack, Stacked(step, [e], stack + [x] + [y]))
  {
    var both := stack + [x] + [y];
    StackedOne(step, e, both);
    assert step(e, both) == NodeStep(m, regs, e, both);
    assert both[..|stack|] == stack;
  }

  lemma {:induction false} NodeStepsAreSteps(m: Mem, regs: RegisterFile)
    ensures IsStep(NodeSteps(m, regs), m, regs)
  {
  }

  /** The encoding of e is at the cursor, inside the block. */
  ghost predicate Ready(m: Mem, end: int, s: Machine, e: Expr)
    requires WellFormed(e)
  {
    Holds(m, s.p, Compile(e)) && s.p + |Compile(e)| <= end + 1
  }

  lemma {:induction false} TreeRuns(m: Mem, regs: RegisterFile, end: int, s: Machine, e: Expr)
    returns (stack: Outcome<Stack>)
    requires WellFormed(e) && Ready(m, end, s, e)
    ensures TreeStacked(m, regs, e, s.stack, stack)
    ensures Leads(LoopBody(m, regs, end), s, Length(e), After(Behind(s, |Compile(e)|, stack)))
  {
    var step := NodeSteps(m, regs);
    CompileIsFlat(e);
    TreeRunsAs(m, regs, end, e, Postfix(e), Codes(Postfix(e)));
    NodeStepsAreSteps(m, regs);
    TreeOnStack(m, regs, step, e, s.stack);
    RunNodes(LoopBody(m, regs, end), m, end, step, s, Postfix(e), Codes(Postfix(e)));
    stack := Stacked(step, Postfix(e), s.stack);
  }

  /**
   Running the encoding of any tree pushes exactly the tree's value, leaves every lower slot
   as it was and stops behind the encoding; and it aborts or faults when the tree does.
   */
  lemma {:induction false} RunCompiled(m: Mem, regs: RegisterFile, end: int, s: Machine, e: Expr)
    requires WellFormed(e) && Ready(m, end, s, e) && |s.stack| + Depth(e) < STACK_SIZE
    ensures Leads(LoopBody(m, regs, end), s, Length(e), Finished(s, |Compile(e)|, Eval(m, regs, e)))
  {
    var stack := TreeRuns(m, regs, end, s, e);
  }

  /** A tree deeper than the room above s.stack never gets to push its value. */
  lemma {:induction false} TooDeepFails(m: Mem, regs: RegisterFile, end: int, s: Machine, e: Expr)
    returns (r: Outcome<Control<Machine, u64>>)
    requires WellFormed(e) && Ready(m, end, s, e) && |s.stack| + Depth(e) >= STACK_SIZE
    ensures IsError(r) && Leads(LoopBody(m, regs, end), s, Length(e), r)
  {
    var stack := TreeRuns(m, regs, end, s, e);
    r := After(Behind(s, |Compile(e)|, stack));
  }

  /////////////////////////////////////////////////////////////////////////////
  // Whole blocks
  /////////////////////////////////////////////////////////////////////////////

  /** A block as the source reads it: the length of the code, then the code. */
  function Block(code: seq<byte>): seq<byte> {
    EncodeUleb(|code|) + code
  }

  /** The bytes of its length field. */
  function Field(code: seq<byte>): nat {
    |EncodeUleb(|code|)|
  }

  /** A run that comes to a state behind the block ends there. */
  lemma {:induction false} RunsOut(m: Mem, regs: RegisterFile, end: int, s: Machine, n: nat, stack: Outcome<Stack>,
                                   width: nat, fuel: nat)
    requires Leads(LoopBody(m, regs, end), s, n, After(Behind(s, width, stack))) && fuel > n && s.p + width > end
    ensures Run(m, regs, end, s, fuel) == Top(stack)
  {
    var body := LoopBody(m, regs, end);
    assert Iterate(body, s, n + (fuel - n)) == Resume(body, After(Behind(s, width, stack)), fuel - n);
  }

  /** What is returned: the word on top. */
  function Top(stack: Outcome<Stack>): Outcome<u64> {
    var words :- stack;
    Ok(words[|words| - 1])
  }

  /** How many of the instructions start at most `limit` bytes behind the first. */
  function Started(codes: seq<seq<byte>>, limit: int): (j: nat)
    ensures j <= |codes|
  {
    if codes == [] || limit < 0 then 0 else 1 + Started(codes[1..], limit - |codes[0]|)
  }

  /** Those start within the limit, and what follows them does not. */
  lemma {:induction false} StartedPrefix(codes: seq<seq<byte>>, limit: int)
    ensures var first := codes[..Started(codes, limit)];
            && StartsWithin(first, 0, limit) && Flat(first) <= Flat(codes)
            && (|first| < |codes| ==> |Flat(first)| > limit)
    decreases |codes|
  {
    if codes != [] && limit >= 0 {
      var rest, width := codes[1..], |codes[0]|;
      StartedPrefix(rest, limit - width);
      var j := Started(rest, limit - width);
      var first := codes[..j + 1];
      assert first[1..] == rest[..j];
      assert j > 0 ==> first[j] == rest[..j][j - 1];
    } else {
      assert codes[..0] == [];
    }
  }

  /**
   The length is added to the address of the length field, not of the code: the loop runs exactly
   the instructions that start at most length - Field bytes behind the first, and what it returns
   is on top of the stack behind them.
   */
  lemma {:induction false} ParseBlock(m: Mem, p: int, initial: u64, regs: RegisterFile, e: Expr, fuel: nat)
    requires WellFormed(e) && Holds(m, p, Block(Compile(e))) && 0 <= p && p + |Compile(e)| < TWO64 && fuel > Length(e)
    ensures ParseExpression(m, p, initial, regs, fuel) ==
            Top(Stacked(NodeSteps(m, regs), Postfix(e)[..NodesRun(e)], [initial]))
  {
    CompileIsFlat(e);
    ParseTree(m, p, initial, regs, e, Postfix(e), Codes(Postfix(e)), Compile(e), NodesRun(e), fuel);
  }

  lemma {:induction false} ParseTree(m: Mem, p: int, initial: u64, regs: RegisterFile, e: Expr, nodes: seq<Expr>,
                                     codes: seq<seq<byte>>, code: seq<byte>, j: nat, fuel: nat)
    requires WellFormed(e) && nodes == Postfix(e) && codes == Codes(nodes) && code == Flat(codes)
    requires Holds(m, p, Block(code)) && 0 <= p && p + |code| < TWO64 && fuel > |nodes|
    requires j == Started(codes, |code| - Field(code)) && j <= |nodes|
    ensures ParseExpression(m, p, initial, regs, fuel) == Top(Stacked(NodeSteps(m, regs), nodes[..j], [initial]))
  {
    TreeRunsAs(m, regs, p + |code|, e, nodes, codes);
    ParseTurns(m, p, initial, regs, nodes, codes, code, j, fuel);
  }

  lemma {:induction false} ParseTurns(m: Mem, p: int, initial: u64, regs: RegisterFile, nodes: seq<Expr>,
                                      codes: seq<seq<byte>>, code: seq<byte>, j: nat, fuel: nat)
    requires nodes != [] && code == Flat(codes) && Holds(m, p, Block(code))
    requires TurnsRunAs(m, regs, p + |code|, NodeSteps(m, regs), nodes, codes)
    requires 0 <= p && p + |code| < TWO64 && fuel > |nodes|
    requires j == Started(codes, |code| - Field(code)) && j <= |nodes|
    ensures ParseExpression(m, p, initial, regs, fuel) == Top(Stacked(NodeSteps(m, regs), nodes[..j], [initial]))
  {
    ParseNodes(m, p, initial, regs, NodeSteps(m, regs), nodes, codes, code, fuel);
  }

  /** How many instructions of a tree's block the loop runs. */
  function NodesRun(e: Expr): (j: nat)
    requires WellFormed(e)
    ensures j <= |Postfix(e)|
  {
    Started(Codes(Postfix(e)), |Compile(e)| - Field(Compile(e)))
  }

  /** The loop runs the instructions that start within the limit, and the next one lies past the end. */
  lemma {:induction false} StartedRun(body: LoopBodyFunction, m: Mem, end: int, step: StepFunction, s: Machine,
                                      nodes: seq<Expr>, codes: seq<seq<byte>>, limit: int)
    requires AllRunAs(body, m, end, step, nodes, codes) && Holds(m, s.p, Flat(codes))
    requires end == s.p + limit && limit < |Flat(codes)|
    ensures var j := Started(codes, limit);
            && j <= |nodes| && |Flat(codes[..j])| > limit
            && Leads(body, s, j, After(Behind(s, |Flat(codes[..j])|, Stacked(step, nodes[..j], s.stack))))
  {
    var j := Started(codes, limit);
    StartedPrefix(codes, limit);
    HoldsPrefix(m, s.p, Flat(codes[..j]), Flat(codes));
    assert j == |codes| ==> codes[..j] == codes;
    FirstRunAs(body, m, end, step, nodes, codes, j);
    RunNodes(body, m, end, step, s, nodes[..j], codes[..j]);
  }

  lemma {:induction false} ParseNodes(m: Mem, p: int, initial: u64, regs: RegisterFile, step: StepFunction,
                                      nodes: seq<Expr>, codes: seq<seq<byte>>, code: seq<byte>, fuel: nat)
    requires nodes != [] && code == Flat(codes) && Holds(m, p, Block(code))
    requires TurnsRunAs(m, regs, p + |code|, step, nodes, codes)
    requires 0 <= p && p + |code| < TWO64 && fuel > |nodes|
    ensures ParseExpression(m, p, initial, regs, fuel) ==
            Top(Stacked(step, nodes[..Started(codes, |code| - Field(code))], [initial]))
  {
    var j, s := Started(codes, |code| - Field(code)), ExprState(p + Field(code), [initial]);
    BlockBegins(m, p, initial, regs, code, fuel);
    StartedRun(LoopBody(m, regs, p + |code|), m, p + |code|, step, s, nodes, codes, |code| - Field(code));
    RunsOut(m, regs, p + |code|, s, j, Stacked(step, nodes[..j], s.stack), |Flat(codes[..j])|, fuel);
  }

  lemma {:induction false} BlockBegins(m: Mem, p: int, initial: u64, regs: RegisterFile, code: seq<byte>, fuel: nat)
    requires 0 <= p && p + |code| < TWO64 && Holds(m, p, Block(code))
    ensures Holds(m, p + Field(code), code)
    ensures ParseExpression(m, p, initial, regs, fuel) ==
            Run(m, regs, p + |code|, ExprState(p + Field(code), [initial]), fuel)
  {
    HoldsConcat(m, p, EncodeUleb(|code|), code);
    UlebRoundTrip(m, p, |code|);
  }

  lemma {:induction false} HoldsPrefix(m: Mem, p: int, a: seq<byte>, b: seq<byte>)
    requires Holds(m, p, b) && a <= b
    ensures Holds(m, p, a)
  {
    assert a + b[|a|..] == b;
    HoldsConcat(m, p, a, b[|a|..]);
  }

  /** The whole block runs if and only if its last instruction is at least as long as its length field. */
  lemma {:induction false} WholeBlockRuns(e: Expr)
    requires WellFormed(e)
    ensures NodesRun(e) == |Postfix(e)| <==> |NodeCode(e)| >= Field(Compile(e))
  {
    CompileIsFlat(e);
    AllStarted(Codes(Postfix(e)), |Compile(e)| - Field(Compile(e)));
  }

  lemma {:induction false} AllStarted(codes: seq<seq<byte>>, limit: int)
    requires codes != []
    ensures Started(codes, limit) == |codes| <==> |Flat(codes)| - |codes[|codes| - 1]| <= limit
  {
    StartedPrefix(codes, limit);
    var j := Started(codes, limit);
    assert codes[..|codes|] == codes;
    if j < |codes| {
      FlatLast(codes, j);
    }
  }

  /**
   A block whose last instruction is at least as long as its length field gives exactly the tree's
   value or its failure when the stack has room for it, and an error when it has not.
   */
  lemma {:induction false} ParseWholeBlock(m: Mem, p: int, initial: u64, regs: RegisterFile, e: Expr, fuel: nat)
    requires WellFormed(e) && Holds(m, p, Block(Compile(e))) && 0 <= p && p + |Compile(e)| < TWO64 && fuel > Length(e)
    requires |NodeCode(e)| >= Field(Compile(e))
    ensures var r := ParseExpression(m, p, initial, regs, fuel);
            if Depth(e) + 1 < 100 then r == Eval(m, regs, e) else IsError(r)
  {
    ParseBlock(m, p, initial, regs, e, fuel);
    WholeBlockRuns(e);
    WholeTree(m, regs, e, NodesRun(e), initial);
  }

  lemma {:induction false} WholeTree(m: Mem, regs: RegisterFile, e: Expr, j: nat, initial: u64)
    requires WellFormed(e) && j == |Postfix(e)|
    ensures var r := Top(Stacked(NodeSteps(m, regs), Postfix(e)[..j], [initial]));
            if Depth(e) + 1 < 100 then r == Eval(m, regs, e) else IsError(r)
  {
    assert Postfix(e)[..j] == Postfix(e);
    NodeStepsAreSteps(m, regs);
    TreeOnStack(m, regs, NodeSteps(m, regs), e, [initial]);
  }

  /** The tree's value with its outermost, one-byte operator left out. */
  function WithoutOperator(m: Mem, regs: RegisterFile, e: Expr): Outcome<u64>
    requires WellFormed(e) && (e.Apply1? || e.Apply2?)
  {
    if e.Apply1? then Eval(m, regs, e.arg)
    else
      var _ :- Eval(m, regs, e.left);
      Eval(m, regs, e.right)
  }

  /** A block of 128 to 16383 bytes that ends with a one-byte operator is evaluated without it. */
  lemma {:induction false} ParseLongBlock(m: Mem, p: int, initial: u64, regs: RegisterFile, e: Expr, fuel: nat)
    requires WellFormed(e) && Holds(m, p, Block(Compile(e))) && 0 <= p && p + |Compile(e)| < TWO64 && fuel > Length(e)
    requires 128 <= |Compile(e)| < 0x4000 && (e.Apply1? || e.Apply2?) && Depth(e) + 1 < STACK_SIZE
    ensures ParseExpression(m, p, initial, regs, fuel) == WithoutOperator(m, regs, e)
  {
    ParseBlock(m, p, initial, regs, e, fuel);
    OperatorNotRun(e);
    Operands(m, regs, e, NodesRun(e), initial);
  }

  lemma {:induction false} OperatorNotRun(e: Expr)
    requires WellFormed(e) && 128 <= |Compile(e)| < 0x4000 && (e.Apply1? || e.Apply2?)
    ensures NodesRun(e) == |Postfix(e)| - 1
  {
    FieldValues(Compile(e));
    CompileIsFlat(e);
    OneNotStarted(Codes(Postfix(e)), |Compile(e)| - Field(Compile(e)));
  }

  /**
   What is lost with a unary operator: a block that ends with DW_OP_not is never evaluated to its
   tree's value, one that ends with DW_OP_neg only for the two words that are their own negation,
   and one that ends with DW_OP_abs only for those that are their own absolute value.
   */
  lemma {:induction false} LongBlockDiffers(m: Mem, p: int, initial: u64, regs: RegisterFile, e: Expr, x: u64,
                                            fuel: nat)
    requires WellFormed(e) && Holds(m, p, Block(Compile(e))) && 0 <= p && p + |Compile(e)| < TWO64 && fuel > Length(e)
    requires 128 <= |Compile(e)| < 0x4000 && e.Apply1? && Depth(e) + 1 < STACK_SIZE && Eval(m, regs, e.arg) == Ok(x)
    ensures var r := ParseExpression(m, p, initial, regs, fuel);
            && (e.op == OP_NOT ==> r != Eval(m, regs, e))
            && (e.op == OP_NEG ==> (r == Eval(m, regs, e) <==> x in {0, TWO63}))
            && (e.op == OP_ABS ==> (r == Eval(m, regs, e) <==> x <= TWO63))
  {
    ParseLongBlock(m, p, initial, regs, e, fuel);
    UnaryFixedPoints(m, e.op, x);
  }

  lemma {:induction false} UnaryFixedPoints(m: Mem, op: byte, x: u64)
    requires IsPlainUnary(op)
    ensures op == OP_NOT ==> UnaryMeaning(m, op, x) != Ok(x)
    ensures op == OP_NEG ==> (UnaryMeaning(m, op, x) == Ok(x) <==> x in {0, TWO63})
    ensures op == OP_ABS ==> (UnaryMeaning(m, op, x) == Ok(x) <==> x <= TWO63)
  {
    SignedWrap(-1 - Signed(x));
    if x != TWO63 {
      SignedWrap(-Signed(x));
    }
  }

  /** All instructions but the last one-byte one start within the limit. */
  lemma {:induction false} OneNotStarted(codes: seq<seq<byte>>, limit: int)
    requires forall code <- codes :: code != []
    requires codes != [] && |codes[|codes| - 1]| == 1 && limit == |Flat(codes)| - 2
    ensures Started(codes, limit) == |codes| - 1
  {
    AllStarted(codes, limit);
    StartedPrefix(codes, limit);
    AllButLastStarted(codes, |codes| - 1, limit);
  }

  lemma {:induction false} AllButLastStarted(codes: seq<seq<byte>>, k: nat, limit: int)
    requires forall code <- codes :: code != []
    requires |codes| == k + 1 && |codes[k]| == 1 && limit == |Flat(codes)| - 2
    ensures k <= Started(codes, limit)
  {
    FlatLast(codes, k);
    assert codes[..k + 1] == codes;
    if k > 0 {
      assert codes[k - 1] in codes && codes[..k][k - 1] == codes[k - 1];
      AllStarted(codes[..k], limit);
      StartedGrows(codes, k, limit);
    }
  }

  lemma {:induction false} StartedGrows(codes: seq<seq<byte>>, k: nat, limit: int)
    requires k <= |codes|
    ensures Started(codes[..k], limit) <= Started(codes, limit)
    decreases k
  {
    if k > 0 && limit >= 0 {
      assert codes[..k][1..] == codes[1..][..k - 1];
      StartedGrows(codes[1..], k - 1, limit - |codes[0]|);
    }
  }

  lemma {:induction false} Operands(m: Mem, regs: RegisterFile, e: Expr, j: nat, initial: u64)
    requires WellFormed(e) && (e.Apply1? || e.Apply2?) && Depth(e) + 1 < STACK_SIZE && j == |Postfix(e)| - 1
    ensures Top(Stacked(NodeSteps(m, regs), Postfix(e)[..j], [initial])) == WithoutOperator(m, regs, e)
  {
    NodeStepsAreSteps(m, regs);
    if e.Apply1? {
      assert Postfix(e)[..j] == Postfix(e.arg);
      TreeOnStack(m, regs, NodeSteps(m, regs), e.arg, [initial]);
    } else {
      assert Postfix(e)[..j] == Postfix(e.left) + Postfix(e.right);
      TwoOperands(m, regs, NodeSteps(m, regs), e.left, e.right, [initial]);
    }
  }

  lemma {:induction false} TwoOperands(m: Mem, regs: RegisterFile, step: StepFunction, l: Expr, r: Expr, stack: Stack)
    requires IsStep(step, m, regs) && WellFormed(l) && WellFormed(r)
    requires |stack| + Depth(l) < STACK_SIZE && |stack| + 1 + Depth(r) < STACK_SIZE
    ensures Top(Stacked(step, Postfix(l) + Postfix(r), stack)) == (var _ :- Eval(m, regs, l); Eval(m, regs, r))
  {
    StackedConcat(step, Postfix(l), Postfix(r), stack);
    TreeOnStack(m, regs, step, l, stack);
    var left := Stacked(step, Postfix(l), stack);
    if left.Ok? {
      TreeOnStack(m, regs, step, r, left.value);
    }
  }

  /** The length field has one byte for less than 128 bytes of code, and two for less than 16384. */
  lemma {:induction false} FieldValues(code: seq<byte>)
    ensures Field(code) == 1 <==> |code| < 128
    ensures Field(code) == 2 <==> 128 <= |code| < 0x4000
  {
    var v := |code|;
    if v >= 128 {
      assert |EncodeUleb(v)| == 1 + |EncodeUleb(v / 128)|;
      assert |EncodeUleb(v / 128)| == 1 <==> v / 128 < 128;
    }
  }
}
