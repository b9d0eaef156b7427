/**
 Call-frame programs as section 6.4.2 of DWARF 4 describes them: instructions with their
 operands, the bytes they are assembled to, and what they mean for an abstract row whose
 offsets are integers.  The machine of module Cfi, run on assembled bytes, does what they mean.
 */
module CfiProgram {
  import opened Words
  import opened Memory
  import opened Leb128
  import opened EhFrame
  import opened EhFrameRecords
  import opened Cfi

  /////////////////////////////////////////////////////////////////////////////
  // Instructions and their encodings
  /////////////////////////////////////////////////////////////////////////////

  /** The encodings of an offset: with the register in the opcode, behind it, signed, or negated. */
  datatype Form = Short | Extended | SignedForm | Negated

  datatype Instruction =
    | Nop
    | Advance(delta: nat, width: nat)
    | SaveAt(reg: nat, factored: int, form: Form)
    | ValueAt(reg: nat, factored: int, form: Form)
    | SetUndefined(reg: nat)
    | SetSame(reg: nat)
    | Restore(reg: nat, form: Form)
    | SaveIn(reg: nat, other: u64)
    | SaveByExpression(reg: nat, block: seq<byte>)
    | ValueByExpression(reg: nat, block: seq<byte>)
    | DefCfa(base: u64, offset: u64)
    | DefCfaFactored(base: u64, factored: int)
    | DefCfaRegister(base: u64)
    | DefCfaOffset(offset: u64)
    | DefCfaOffsetFactored(factored: int)
    | DefCfaExpression(block: seq<byte>)
    | ArgsSize(size: u64)
    | RememberState
    | RestoreState

  /** The operands fit their encodings, and the register is one of the 32 the row has. */
  predicate Encodable(i: Instruction) {
    match i
    case Advance(delta, width) => if width == 0 then delta < 64 else width in {1, 2, 4} && delta < WordLimit(width)
    case SaveAt(reg, factored, form) =>
      && reg < 32 && IsSigned64(factored)
      && (form in {Short, Extended} ==> factored >= 0) && (form == Negated ==> factored <= 0)
    case ValueAt(reg, factored, form) =>
      reg < 32 && IsSigned64(factored)
      && form in {Extended, SignedForm} && (form == Extended ==> factored >= 0)
    case SetUndefined(reg) => reg < 32
    case SetSame(reg) => reg < 32
    case Restore(reg, form) => reg < 32 && form in {Short, Extended}
    case SaveIn(reg, _) => reg < 32
    case SaveByExpression(reg, block) => reg < 32 && |block| < TWO64
    case ValueByExpression(reg, block) => reg < 32 && |block| < TWO64
    case DefCfaFactored(_, factored) => IsSigned64(factored)
    case DefCfaOffsetFactored(factored) => IsSigned64(factored)
    case DefCfaExpression(block) => |block| < TWO64
    case _ => true
  }

  function Block(block: seq<byte>): seq<byte> {
    EncodeUleb(|block|) + block
  }

  function FirstByte(i: Instruction): byte
    requires Encodable(i)
  {
    match i
    case Nop => 0
    case Advance(delta, width) =>
      if width == 0 then 0x40 + delta else if width == 1 then 0x02 else if width == 2 then 0x03 else 0x04
    case SaveAt(reg, _, form) =>
      (match form
       case Short => 0x80 + reg
       case Extended => 0x05
       case SignedForm => 0x11
       case Negated => 0x2F)
    case ValueAt(_, _, form) => if form == Extended then 0x14 else 0x15
    case SetUndefined(_) => 0x07
    case SetSame(_) => 0x08
    case Restore(reg, form) => if form == Short then 0xC0 + reg else 0x06
    case SaveIn(_, _) => 0x09
    case SaveByExpression(_, _) => 0x10
    case ValueByExpression(_, _) => 0x16
    case DefCfa(_, _) => 0x0C
    case DefCfaFactored(_, _) => 0x12
    case DefCfaRegister(_) => 0x0D
    case DefCfaOffset(_) => 0x0E
    case DefCfaOffsetFactored(_) => 0x13
    case DefCfaExpression(_) => 0x0F
    case ArgsSize(_) => 0x2E
    case RememberState => 0x0A
    case RestoreState => 0x0B
  }

  /** The bytes behind the first. */
  function Operands(i: Instruction): seq<byte>
    requires Encodable(i)
  {
    match i
    case Advance(delta, width) => LeBytes(delta, width)
    case SaveAt(reg, factored, form) =>
      (match form
       case Short => EncodeUleb(factored)
       case Extended => EncodeUleb(reg) + EncodeUleb(factored)
       case SignedForm => EncodeUleb(reg) + EncodeSleb(factored)
       case Negated => EncodeUleb(reg) + EncodeUleb(-factored))
    case ValueAt(reg, factored, form) =>
      EncodeUleb(reg) + if form == Extended then EncodeUleb(factored) else EncodeSleb(factored)
    case SetUndefined(reg) => EncodeUleb(reg)
    case SetSame(reg) => EncodeUleb(reg)
    case Restore(reg, form) => if form == Short then [] else EncodeUleb(reg)
    case SaveIn(reg, other) => EncodeUleb(reg) + EncodeUleb(other)
    case SaveByExpression(reg, block) => EncodeUleb(reg) + Block(block)
    case ValueByExpression(reg, block) => EncodeUleb(reg) + Block(block)
    case DefCfa(base, offset) => EncodeUleb(base) + EncodeUleb(offset)
    case DefCfaFactored(base, factored) => EncodeUleb(base) + EncodeSleb(factored)
    case DefCfaRegister(base) => EncodeUleb(base)
    case DefCfaOffset(offset) => EncodeUleb(offset)
    case DefCfaOffsetFactored(factored) => EncodeSleb(factored)
    case DefCfaExpression(block) => Block(block)
    case ArgsSize(size) => EncodeUleb(size)
    case _ => []
  }

  function Encode(i: Instruction): seq<byte>
    requires Encodable(i)
  {
    [FirstByte(i)] + Operands(i)
  }

  /////////////////////////////////////////////////////////////////////////////
  // What they mean
  /////////////////////////////////////////////////////////////////////////////

  /** How to find the caller's value of a register; a register without a rule is undefined. */
  datatype Meaning =
    | Same
    | SavedAt(offset: int)
    | ValueIs(offset: int)
    | HeldIn(other: u64)
    | SavedBy(block: seq<byte>)
    | ComputedBy(block: seq<byte>)

  datatype CfaMeaning = AtRegister(reg: u64, offset: int) | ByExpression(block: seq<byte>)

  /** One row: offsets are relative to the CFA. */
  datatype Frame = Frame(cfa: CfaMeaning, argSize: u64, rules: map<nat, Meaning>)

  const FRESH_FRAME := Frame(AtRegister(0, 0), 0, map[])

  /** A program in progress: the location reached, the current row, the rows remembered. */
  datatype Progress = Progress(loc: nat, frame: Frame, saved: seq<Frame>)

  /** The alignment factors of the CIE. */
  datatype Factors = Factors(code: nat, data: int)

  /**
   The standard gives the instruction a meaning here: half a CFA is redefined only while it is a
   register and an offset, and there is a row to restore.
   */
  predicate Meaningful(i: Instruction, s: Progress) {
    && (NeedsRegister(i) ==> s.frame.cfa.AtRegister?)
    && (i.RestoreState? ==> s.saved != [])
  }

  /**
   The machine does what it means: it does not forget that a CFA is an expression, does not know
   DW_CFA_register, and remembers ten rows.
   */
  predicate Applicable(i: Instruction, s: Progress) {
    && Meaningful(i, s) && !i.SaveIn?
    && (i.DefCfa? || i.DefCfaFactored? ==> s.frame.cfa.AtRegister?)
    && (i.RememberState? ==> |s.saved| < 10)
  }

  function SetMeaning(f: Frame, reg: nat, meaning: Meaning): Frame {
    f.(rules := f.rules[reg := meaning])
  }

  /** The instructions that neither move the location nor use the remembered rows. */
  predicate ChangesFrame(i: Instruction) {
    !i.Advance? && !i.RememberState? && !i.RestoreState?
  }

  /** The instructions that redefine one half of a CFA. */
  predicate NeedsRegister(i: Instruction) {
    i.DefCfaRegister? || i.DefCfaOffset? || i.DefCfaOffsetFactored?
  }

  /** The instructions that make the CFA a register and an offset. */
  predicate RedefinesCfa(i: Instruction) {
    i.DefCfa? || i.DefCfaFactored? || NeedsRegister(i)
  }

  function FrameAfter(factors: Factors, initial: Frame, f: Frame, i: Instruction): Frame
    requires ChangesFrame(i) && (NeedsRegister(i) ==> f.cfa.AtRegister?)
  {
    match i
    case Nop => f
    case SaveAt(reg, factored, _) => SetMeaning(f, reg, SavedAt(factored * factors.data))
    case ValueAt(reg, factored, _) => SetMeaning(f, reg, ValueIs(factored * factors.data))
    case SetUndefined(reg) => f.(rules := f.rules - {reg})
    case SetSame(reg) => SetMeaning(f, reg, Same)
    case Restore(reg, _) =>
      if reg in initial.rules then SetMeaning(f, reg, initial.rules[reg]) else f.(rules := f.rules - {reg})
    case SaveIn(reg, other) => SetMeaning(f, reg, HeldIn(other))
    case SaveByExpression(reg, block) => SetMeaning(f, reg, SavedBy(block))
    case ValueByExpression(reg, block) => SetMeaning(f, reg, ComputedBy(block))
    case DefCfa(base, offset) => f.(cfa := AtRegister(base, offset))
    case DefCfaFactored(base, factored) => f.(cfa := AtRegister(base, factored * factors.data))
    case DefCfaRegister(base) => f.(cfa := AtRegister(base, f.cfa.offset))
    case DefCfaOffset(offset) => f.(cfa := AtRegister(f.cfa.reg, offset))
    case DefCfaOffsetFactored(factored) => f.(cfa := AtRegister(f.cfa.reg, factored * factors.data))
    case DefCfaExpression(block) => f.(cfa := ByExpression(block))
    case ArgsSize(size) => f.(argSize := size)
  }

  function Do(factors: Factors, initial: Frame, s: Progress, i: Instruction): Progress
    requires Meaningful(i, s)
  {
    match i
    case Advance(delta, _) => s.(loc := s.loc + delta * factors.code)
    case RememberState => s.(saved := s.saved + [s.frame])
    case RestoreState => s.(frame := s.saved[|s.saved| - 1], saved := s.saved[..|s.saved| - 1])
    case _ => s.(frame := FrameAfter(factors, initial, s.frame, i))
  }

  /////////////////////////////////////////////////////////////////////////////
  // Rows that stand for frames
  /////////////////////////////////////////////////////////////////////////////

  ghost predicate IsRule(m: Mem, r: RegisterRule, reg: nat, f: Frame) {
    && r.index == reg
    && if reg !in f.rules then r.rule == Undefined
       else
         match f.rules[reg]
         case Same => r.rule == SameValue
         case SavedAt(offset) => r.rule == Offset && r.value == Wrap(offset)
         case ValueIs(offset) => r.rule == ValOffset && r.value == Wrap(offset)
         case HeldIn(other) => r.rule == InRegister && r.value == other
         case SavedBy(block) => r.rule == InExpression && Holds(m, r.value, Block(block))
         case ComputedBy(block) => r.rule == ValExpression && Holds(m, r.value, Block(block))
  }

  ghost predicate IsCfa(m: Mem, c: Cfa, meaning: CfaMeaning) {
    match meaning
    case AtRegister(reg, offset) => !c.isExpression && c.value == reg && c.offset == Wrap(offset)
    case ByExpression(block) => c.isExpression && Holds(m, c.value, Block(block))
  }

  /** The trigger leaves it to the lemmas to say which register is meant. */
  ghost predicate IsFrame(m: Mem, row: Row, f: Frame) {
    && IsCfa(m, row.cfa, f.cfa) && row.argSize == f.argSize
    && forall reg: nat {:trigger IsRule(m, row.rules[reg], reg, f)} | reg < 32 ::
         IsRule(m, row.rules[reg], reg, f)
  }

  ghost predicate IsProgress(m: Mem, s: CfiState, abs: Progress) {
    && s.loc == Wrap(abs.loc) && IsFrame(m, s.row, abs.frame)
    && |s.saved| == |abs.saved| && forall k | 0 <= k < |s.saved| :: IsFrame(m, s.saved[k], abs.saved[k])
  }

  /** The CIE has these factors. */
  predicate HasFactors(cie: Cie, factors: Factors) {
    cie.codeAlignment == Wrap(factors.code) && cie.dataAlignment == Wrap(factors.data)
  }

  lemma {:induction false} DefaultRowIsFresh(m: Mem)
    ensures IsFrame(m, DefaultRow(), FRESH_FRAME)
  {
    forall reg: nat | reg < MAX_NUM_REGISTERS
      ensures IsRule(m, DefaultRow().rules[reg], reg, FRESH_FRAME)
    {
    }
  }

  /** A new rule for one register. */
  lemma {:induction false} RuleSet(m: Mem, row: Row, f: Frame, reg: nat, r: RegisterRule, g: Frame)
    requires reg < MAX_NUM_REGISTERS && IsFrame(m, row, f) && IsRule(m, r, reg, g)
    requires g.cfa == f.cfa && g.argSize == f.argSize && g.rules - {reg} == f.rules - {reg}
    ensures IsFrame(m, row.(rules := row.rules[reg := r]), g)
  {
    var rules := row.rules[reg := r];
    forall k: nat | k < MAX_NUM_REGISTERS
      ensures IsRule(m, rules[k], k, g)
    {
      if k != reg {
        assert IsRule(m, row.rules[k], k, f);
        SameElsewhere(f.rules, g.rules, reg, k);
      }
    }
  }

  lemma {:induction false} SameElsewhere(a: map<nat, Meaning>, b: map<nat, Meaning>, reg: nat, k: nat)
    requires a - {reg} == b - {reg} && k != reg
    ensures k in a <==> k in b
    ensures k in a ==> a[k] == b[k]
  {
    assert k in a <==> k in a - {reg};
    assert k in b <==> k in b - {reg};
    if k in a {
      assert (a - {reg})[k] == a[k] && (b - {reg})[k] == b[k];
    }
  }

  /////////////////////////////////////////////////////////////////////////////
  // Operands
  /////////////////////////////////////////////////////////////////////////////

  lemma {:induction false} UlebAt(m: Mem, p: int, v: nat, rest: seq<byte>)
    requires v < TWO64 && Holds(m, p, EncodeUleb(v) + rest)
    ensures Uleb(m, p) == Ok((v, p + |EncodeUleb(v)|)) && Holds(m, p + |EncodeUleb(v)|, rest)
  {
    HoldsConcat(m, p, EncodeUleb(v), rest);
    UlebRoundTrip(m, p, v);
  }

  lemma {:induction false} ScaledIs(factored: int, data: int)
    ensures Scaled(Wrap(factored), Wrap(data)) == Wrap(factored * data)
  {
    ProductValue(Wrap(factored), Wrap(data));
    WrapTimes(factored, data);
  }

  lemma {:induction false} WrapTimes(x: int, y: int)
    ensures Wrap(Wrap(x) * Wrap(y)) == Wrap(x * y)
  {
    var q, r := x / TWO64, y / TWO64;
    TimesExpanded(Wrap(x), q, Wrap(y), r);
    WrapPlus(Wrap(x) * Wrap(y), q * y + r * Wrap(x));
  }

  lemma {:induction false} TimesExpanded(a: int, q: int, b: int, r: int)
    ensures (a + q * TWO64) * (b + r * TWO64) == a * b + (q * (b + r * TWO64) + r * a) * TWO64
  {
  }

  lemma {:induction false} WrapPlus(x: int, k: int)
    ensures Wrap(x + k * TWO64) == Wrap(x)
  {
    ModUnique(x + k * TWO64, TWO64, x / TWO64 + k, x % TWO64);
  }

  /////////////////////////////////////////////////////////////////////////////
  // One instruction
  /////////////////////////////////////////////////////////////////////////////

  /** The outcome of an offset instruction, from its decoded operands. */
  lemma {:induction false} OffsetRuleIs(m: Mem, cie: Cie, data: int, opcode: byte, operand: byte, p: int, row: Row,
                                        reg: nat, q: int, factored: int, q': int)
    requires IsOffsetRule(opcode) && reg < MAX_NUM_REGISTERS && cie.dataAlignment == Wrap(data)
    requires if opcode == CFA_OFFSET then operand == reg && q == p else Uleb(m, p) == Ok((reg, q))
    requires if opcode in {CFA_OFFSET_EXTENDED_SF, CFA_VAL_OFFSET_SF} then Sleb(m, q) == Ok((Wrap(factored), q'))
             else Uleb(m, q) == Ok((Wrap(factored), q'))
    ensures OffsetRule(m, cie, opcode, operand, p, row) ==
            Ok((q', row.(rules := row.rules[reg := RegisterRule(
              reg, if opcode in {CFA_VAL_OFFSET, CFA_VAL_OFFSET_SF} then ValOffset else Offset,
              Wrap(if opcode == CFA_GNU_NEGATIVE_OFFSET_EXTENDED then -factored * data else factored * data))])))
  {
    ScaledIs(factored, data);
    NegativeIs(factored, data);
  }

  lemma {:induction false} NegativeIs(x: int, y: int)
    ensures Wrap(0 - Wrap(x * y)) == Wrap(-x * y)
  {
    assert -x * y == -(x * y);
    var q := x * y / TWO64;
    assert 0 - Wrap(x * y) == -(x * y) + q * TWO64;
    WrapPlus(-(x * y), q);
  }

  /** Both operands of an instruction: a register, and a number with or without sign. */
  lemma {:induction false} TwoOperands(m: Mem, p: int, reg: nat, v: nat)
    requires reg < TWO64 && v < TWO64 && Holds(m, p, EncodeUleb(reg) + EncodeUleb(v))
    ensures var q := p + |EncodeUleb(reg)|;
            Uleb(m, p) == Ok((reg, q)) && Uleb(m, q) == Ok((v, q + |EncodeUleb(v)|))
  {
    UlebAt(m, p, reg, EncodeUleb(v));
    UlebAlone(m, p + |EncodeUleb(reg)|, v);
  }

  lemma {:induction false} SignedOperands(m: Mem, p: int, reg: nat, v: int)
    requires reg < TWO64 && IsSigned64(v) && Holds(m, p, EncodeUleb(reg) + EncodeSleb(v))
    ensures var q := p + |EncodeUleb(reg)|;
            Uleb(m, p) == Ok((reg, q)) && Sleb(m, q) == Ok((Wrap(v), q + |EncodeSleb(v)|))
  {
    UlebAt(m, p, reg, EncodeSleb(v));
    SlebAlone(m, p + |EncodeUleb(reg)|, v);
  }

  /** The other register of DW_CFA_register has a rule in the row. */
  predicate Known(i: Instruction) {
    i.SaveIn? ==> i.other < 32
  }

  /** The concrete row after an instruction whose operands stand at p. */
  function RowAfter(data: int, initial: Row, row: Row, p: int, i: Instruction): Row
    requires Encodable(i) && ChangesFrame(i) && Known(i)
  {
    match i
    case Nop => row
    case SaveAt(reg, factored, _) => WithRule(row, RegisterRule(reg, Offset, Wrap(factored * data)), reg)
    case ValueAt(reg, factored, _) => WithRule(row, RegisterRule(reg, ValOffset, Wrap(factored * data)), reg)
    case SetUndefined(reg) => WithRule(row, row.rules[reg].(rule := Undefined), reg)
    case SetSame(reg) => WithRule(row, row.rules[reg].(rule := SameValue), reg)
    case Restore(reg, _) => WithRule(row, initial.rules[reg], reg)
    case SaveIn(reg, other) => WithRule(row, row.rules[reg].(rule := row.rules[other].rule), reg)
    case SaveByExpression(reg, _) => WithRule(row, RegisterRule(reg, InExpression, Wrap(p + |EncodeUleb(reg)|)), reg)
    case ValueByExpression(reg, _) => WithRule(row, RegisterRule(reg, ValExpression, Wrap(p + |EncodeUleb(reg)|)), reg)
    case DefCfa(base, offset) => row.(cfa := row.cfa.(value := base, offset := offset))
    case DefCfaFactored(base, factored) => row.(cfa := row.cfa.(value := base, offset := Wrap(factored * data)))
    case DefCfaRegister(base) => row.(cfa := row.cfa.(value := base))
    case DefCfaOffset(offset) => row.(cfa := row.cfa.(offset := offset))
    case DefCfaOffsetFactored(factored) => row.(cfa := row.cfa.(offset := Wrap(factored * data)))
    case DefCfaExpression(_) => row.(cfa := row.cfa.(value := Wrap(p), isExpression := true))
    case ArgsSize(size) => row.(argSize := size)
  }

  function WithRule(row: Row, r: RegisterRule, reg: nat): Row
    requires reg < MAX_NUM_REGISTERS
  {
    row.(rules := row.rules[reg := r])
  }

  lemma {:induction false} OffsetDecodes(m: Mem, cie: Cie, data: int, initial: Row, p: int, row: Row, i: Instruction)
    requires Encodable(i) && (i.SaveAt? || i.ValueAt?) && cie.dataAlignment == Wrap(data) && Holds(m, p, Operands(i))
    ensures var b := FirstByte(i);
            && IsOffsetRule(Opcode(b))
            && OffsetRule(m, cie, Opcode(b), b % 64, p, row)
               == Ok((p + |Operands(i)|, RowAfter(data, initial, row, p, i)))
  {
    var v := if i.form == Negated then -i.factored else i.factored;
    var q := OffsetOperands(m, p, i, v);
    OffsetOpcode(i);
    OffsetRuleIs(m, cie, data, OpcodeOf(i), FirstByte(i) % 64, p, row, i.reg, q, v, p + |Operands(i)|);
  }

  /** The operands that the parser reads. */
  lemma {:induction false} OffsetOperands(m: Mem, p: int, i: Instruction, v: int) returns (q: int)
    requires Encodable(i) && (i.SaveAt? || i.ValueAt?) && Holds(m, p, Operands(i))
    requires v == if i.form == Negated then -i.factored else i.factored
    ensures if i.form == Short then q == p else Uleb(m, p) == Ok((i.reg, q))
    ensures (if i.form == SignedForm then Sleb(m, q) else Uleb(m, q)) == Ok((Wrap(v), p + |Operands(i)|))
  {
    if i.form == Short {
      q := p;
      UlebAlone(m, p, v);
    } else if i.form == SignedForm {
      q := SignedOffset(m, p, i, v);
    } else {
      q := UnsignedOffset(m, p, i, v);
    }
  }

  lemma {:induction false} SignedOffset(m: Mem, p: int, i: Instruction, v: int) returns (q: int)
    requires Encodable(i) && (i.SaveAt? || i.ValueAt?) && i.form == SignedForm && v == i.factored
    requires Holds(m, p, Operands(i))
    ensures Uleb(m, p) == Ok((i.reg, q)) && Sleb(m, q) == Ok((Wrap(v), p + |Operands(i)|))
  {
    SignedOperands(m, p, i.reg, v);
    q := p + |EncodeUleb(i.reg)|;
  }

  lemma {:induction false} UnsignedOffset(m: Mem, p: int, i: Instruction, v: int) returns (q: int)
    requires Encodable(i) && (i.SaveAt? || i.ValueAt?) && i.form in {Extended, Negated} && Holds(m, p, Operands(i))
    requires v == if i.form == Negated then -i.factored else i.factored
    ensures Uleb(m, p) == Ok((i.reg, q)) && Uleb(m, q) == Ok((Wrap(v), p + |Operands(i)|))
  {
    var register, number := EncodeUleb(i.reg), EncodeUleb(v);
    assert Operands(i) == register + number && Wrap(v) == v;
    TwoOperands(m, p, i.reg, v);
    q := p + |register|;
  }

  function OpcodeOf(i: Instruction): int
    requires i.SaveAt? || i.ValueAt?
  {
    if i.ValueAt? then (if i.form == Extended then CFA_VAL_OFFSET else CFA_VAL_OFFSET_SF)
    else
      match i.form
      case Short => CFA_OFFSET
      case Extended => CFA_OFFSET_EXTENDED
      case SignedForm => CFA_OFFSET_EXTENDED_SF
      case Negated => CFA_GNU_NEGATIVE_OFFSET_EXTENDED
  }

  lemma {:induction false} OffsetOpcode(i: Instruction)
    requires Encodable(i) && (i.SaveAt? || i.ValueAt?)
    ensures Opcode(FirstByte(i)) == OpcodeOf(i) && (OpcodeOf(i) == CFA_OFFSET ==> FirstByte(i) % 64 == i.reg)
    ensures OpcodeOf(i) == CFA_OFFSET <==> i.form == Short
    ensures OpcodeOf(i) in {CFA_OFFSET_EXTENDED_SF, CFA_VAL_OFFSET_SF} <==> i.form == SignedForm
  {
  }

  lemma {:induction false} PlainDecodes(m: Mem, data: int, initial: Row, p: int, row: Row, i: Instruction)
    requires Encodable(i) && (i.SetUndefined? || i.SetSame? || i.Restore?) && Holds(m, p, Operands(i))
    requires i.Restore? ==> initial.rules[i.reg].index == i.reg
    ensures var b := FirstByte(i);
            && IsPlainRule(Opcode(b))
            && PlainRule(m, Opcode(b), b % 64, p, initial, row)
               == Ok((p + |Operands(i)|, RowAfter(data, initial, row, p, i)))
  {
    if !(i.Restore? && i.form == Short) {
      assert Operands(i) == EncodeUleb(i.reg) + [];
      UlebAt(m, p, i.reg, []);
    }
  }

  lemma {:induction false} CfaDecodes(m: Mem, cie: Cie, data: int, initial: Row, p: int, row: Row, i: Instruction)
    requires Encodable(i) && (RedefinesCfa(i) || i.ArgsSize?) && cie.dataAlignment == Wrap(data)
    requires Holds(m, p, Operands(i))
    ensures var b := FirstByte(i);
            && IsCfaRule(Opcode(b))
            && CfaRule(m, cie, Opcode(b), p, row) == Ok((p + |Operands(i)|, RowAfter(data, initial, row, p, i)))
  {
    if i.DefCfa? || i.DefCfaFactored? {
      CfaPairDecodes(m, cie, data, initial, p, row, i);
    } else if i.DefCfaOffsetFactored? {
      SlebAlone(m, p, i.factored);
      ScaledIs(i.factored, data);
    } else {
      UlebAlone(m, p, if i.DefCfaRegister? then i.base else if i.DefCfaOffset? then i.offset else i.size);
    }
  }

  lemma {:induction false} CfaPairDecodes(m: Mem, cie: Cie, data: int, initial: Row, p: int, row: Row, i: Instruction)
    requires Encodable(i) && (i.DefCfa? || i.DefCfaFactored?) && cie.dataAlignment == Wrap(data)
    requires Holds(m, p, Operands(i))
    ensures CfaRule(m, cie, FirstByte(i), p, row) == Ok((p + |Operands(i)|, RowAfter(data, initial, row, p, i)))
  {
    if i.DefCfa? {
      TwoOperands(m, p, i.base, i.offset);
    } else {
      SignedOperands(m, p, i.base, i.factored);
      ScaledIs(i.factored, data);
    }
  }

  lemma {:induction false} UlebAlone(m: Mem, p: int, v: nat)
    requires v < TWO64 && Holds(m, p, EncodeUleb(v))
    ensures Uleb(m, p) == Ok((v, p + |EncodeUleb(v)|))
  {
    UlebRoundTrip(m, p, v);
  }

  lemma {:induction false} SlebAlone(m: Mem, p: int, v: int)
    requires IsSigned64(v) && Holds(m, p, EncodeSleb(v))
    ensures Sleb(m, p) == Ok((Wrap(v), p + |EncodeSleb(v)|))
  {
    SignedWrap(v);
    SlebRoundTrip(m, p, Wrap(v));
  }

  lemma {:induction false} BlockSkipped(m: Mem, p: int, block: seq<byte>)
    requires |block| < TWO64 && Holds(m, p, Block(block)) && p + |Block(block)| < TWO64
    ensures SkipBlock(m, p) == Ok(p + |Block(block)|)
  {
    UlebAt(m, p, |block|, block);
  }

  lemma {:induction false} ExpressionDecodes(m: Mem, data: int, initial: Row, p: int, row: Row, i: Instruction)
    requires Encodable(i) && (i.SaveByExpression? || i.ValueByExpression? || i.DefCfaExpression?)
    requires Holds(m, p, Operands(i)) && p + |Operands(i)| < TWO64
    ensures var b := FirstByte(i);
            && IsExpressionRule(Opcode(b))
            && ExpressionRule(m, Opcode(b), p, row) == Ok((p + |Operands(i)|, RowAfter(data, initial, row, p, i)))
  {
    if i.DefCfaExpression? {
      BlockSkipped(m, p, i.block);
    } else {
      UlebAt(m, p, i.reg, Block(i.block));
      BlockSkipped(m, p + |EncodeUleb(i.reg)|, i.block);
    }
  }

  /** DW_CFA_register copies the kind of a rule, and aborts if there is none to copy. */
  lemma {:induction false} SaveInDecodes(m: Mem, data: int, initial: Row, p: int, row: Row, i: Instruction)
    requires Encodable(i) && i.SaveIn? && Holds(m, p, Operands(i))
    ensures PlainRule(m, CFA_REGISTER, FirstByte(i) % 64, p, initial, row) ==
            if Known(i) then Ok((p + |Operands(i)|, RowAfter(data, initial, row, p, i))) else Abort
  {
    TwoOperands(m, p, i.reg, i.other);
  }

  /** The machine decodes every assembled instruction that changes the row. */
  lemma {:induction false} RowDecodes(m: Mem, cie: Cie, data: int, initial: Row, p: int, row: Row, i: Instruction)
    requires Encodable(i) && ChangesFrame(i) && cie.dataAlignment == Wrap(data)
    requires Holds(m, p, Operands(i)) && p + |Operands(i)| < TWO64
    requires i.Restore? ==> initial.rules[i.reg].index == i.reg
    ensures var b := FirstByte(i);
            RowInstruction(m, cie, initial, Opcode(b), b % 64, p, row) ==
            if Known(i) then Ok((p + |Operands(i)|, RowAfter(data, initial, row, p, i))) else Abort
  {
    if i.SaveIn? {
      SaveInDecodes(m, data, initial, p, row, i);
    } else if i.SaveAt? || i.ValueAt? {
      OffsetDecodes(m, cie, data, initial, p, row, i);
    } else if i.SetUndefined? || i.SetSame? || i.Restore? {
      PlainDecodes(m, data, initial, p, row, i);
    } else if RedefinesCfa(i) || i.ArgsSize? {
      CfaDecodes(m, cie, data, initial, p, row, i);
    } else if !i.Nop? {
      ExpressionDecodes(m, data, initial, p, row, i);
    }
  }

  /** The row it leaves stands for the frame that the instruction means. */
  lemma {:induction false} RowMeans(m: Mem, factors: Factors, initial: Row, abs: Frame, p: int, row: Row, f: Frame,
                                    i: Instruction)
    requires Encodable(i) && ChangesFrame(i) && (RedefinesCfa(i) ==> f.cfa.AtRegister?) && !i.SaveIn?
    requires IsFrame(m, row, f) && IsFrame(m, initial, abs) && Holds(m, p, Operands(i)) && 0 <= p
    requires p + |Operands(i)| < TWO64
    ensures IsFrame(m, RowAfter(factors.data, initial, row, p, i), FrameAfter(factors, abs, f, i))
  {
    var row', f' := RowAfter(factors.data, initial, row, p, i), FrameAfter(factors, abs, f, i);
    if RedefinesCfa(i) || i.ArgsSize? || i.Nop? || i.DefCfaExpression? {
      RulesKept(m, row, f, row', f');
    } else {
      var reg := i.reg;
      assert IsRule(m, row.rules[reg], reg, f) && IsRule(m, initial.rules[reg], reg, abs);
      RuleMeans(m, factors, initial, abs, p, row, f, i);
      RuleSet(m, row, f, reg, row'.rules[reg], f');
    }
  }

  lemma {:induction false} RuleMeans(m: Mem, factors: Factors, initial: Row, abs: Frame, p: int, row: Row, f: Frame,
                                     i: Instruction)
    requires Encodable(i) && ChangesFrame(i) && !RedefinesCfa(i) && !i.SaveIn? && !i.ArgsSize? && !i.Nop?
    requires !i.DefCfaExpression?
    requires IsRule(m, row.rules[i.reg], i.reg, f) && IsRule(m, initial.rules[i.reg], i.reg, abs)
    requires Holds(m, p, Operands(i)) && 0 <= p && p + |Operands(i)| < TWO64
    ensures IsRule(m, RowAfter(factors.data, initial, row, p, i).rules[i.reg], i.reg, FrameAfter(factors, abs, f, i))
  {
    if i.SaveByExpression? || i.ValueByExpression? {
      HoldsConcat(m, p, EncodeUleb(i.reg), Block(i.block));
    }
  }

  lemma {:induction false} RulesKept(m: Mem, row: Row, f: Frame, row': Row, f': Frame)
    requires IsFrame(m, row, f) && row'.rules == row.rules && f'.rules == f.rules
    requires IsCfa(m, row'.cfa, f'.cfa) && row'.argSize == f'.argSize
    ensures IsFrame(m, row', f')
  {
    forall reg: nat | reg < MAX_NUM_REGISTERS
      ensures IsRule(m, row'.rules[reg], reg, f')
    {
      assert IsRule(m, row.rules[reg], reg, f);
    }
  }

  lemma {:induction false} WrapSum(x: int, delta: nat, code: int)
    ensures Wrap(Wrap(x) + Product(delta, Wrap(code))) == Wrap(x + delta * code)
  {
    ProductValue(delta, Wrap(code));
    var q, r := x / TWO64, code / TWO64;
    DeltaExpanded(delta, Wrap(code), r);
    WrapPlus(Wrap(x) + delta * Wrap(code), q + delta * r);
  }

  lemma {:induction false} DeltaExpanded(delta: int, low: int, r: int)
    ensures delta * (low + r * TWO64) == delta * low + (delta * r) * TWO64
  {
  }

  lemma {:induction false} AdvanceMeans(m: Mem, cie: Cie, factors: Factors, p: int, loc: u64, abs: nat, i: Instruction)
    requires Encodable(i) && i.Advance? && HasFactors(cie, factors) && Holds(m, p, Operands(i)) && loc == Wrap(abs)
    ensures var b := FirstByte(i);
            && IsAdvance(Opcode(b))
            && Moved(m, cie, Opcode(b), b % 64, p, loc) == Ok((p + |Operands(i)|, Wrap(abs + i.delta * factors.code)))
  {
    WrapSum(abs, i.delta, factors.code);
    if i.width > 0 {
      ReadStoredWord(m, p, i.delta, i.width);
    }
  }

  /** One step of the machine on an assembled instruction, where it applies, does what the instruction means. */
  lemma {:induction false} StepDoes(m: Mem, cie: Cie, factors: Factors, initial: Row, abs: Frame, s: CfiState,
                                    a: Progress, i: Instruction)
    requires Encodable(i) && Applicable(i, a) && HasFactors(cie, factors) && IsProgress(m, s, a)
    requires IsFrame(m, initial, abs)
    requires Holds(m, s.p, Encode(i)) && 0 <= s.p && s.p + |Encode(i)| < TWO64
    ensures Does(m, Step(m, cie, initial, s), s.p + |Encode(i)|, Do(factors, abs, a, i))
    ensures StartsRow(m, s.p) <==> i.Advance?
  {
    var b := FirstByte(i);
    HeadAndRest(m, s.p, b, Operands(i));
    if i.Advance? {
      AdvanceMeans(m, cie, factors, s.p + 1, s.loc, a.loc, i);
    } else if ChangesFrame(i) {
      if i.Restore? {
        assert IsRule(m, initial.rules[i.reg], i.reg, abs);
      }
      RowDecodes(m, cie, factors.data, initial, s.p + 1, s.row, i);
      RowMeans(m, factors, initial, abs, s.p + 1, s.row, a.frame, i);
      PlainOpcode(i);
    }
  }

  /** The machine has come to q and stands for this progress. */
  ghost predicate Does(m: Mem, r: Outcome<CfiState>, q: int, a: Progress) {
    r.Ok? && r.value.p == q && IsProgress(m, r.value, a)
  }

  /** No register is held in another, as in every row that the machine reaches. */
  predicate NoneHeld(f: Frame) {
    forall reg <- f.rules :: !f.rules[reg].HeldIn?
  }

  /**
   Where an instruction has a meaning, one step of the machine on its encoding does what it means
   if and only if it is not DW_CFA_register, does not make a register and an offset of a CFA that
   is an expression, and does not remember an eleventh row.
   */
  lemma {:induction false} StepMeans(m: Mem, cie: Cie, factors: Factors, initial: Row, abs: Frame, s: CfiState,
                                     a: Progress, i: Instruction)
    requires Encodable(i) && Meaningful(i, a) && HasFactors(cie, factors) && IsProgress(m, s, a)
    requires IsFrame(m, initial, abs)
    requires Holds(m, s.p, Encode(i)) && 0 <= s.p && s.p + |Encode(i)| < TWO64 && NoneHeld(a.frame)
    ensures Does(m, Step(m, cie, initial, s), s.p + |Encode(i)|, Do(factors, abs, a, i)) <==> Applicable(i, a)
  {
    if Applicable(i, a) {
      StepDoes(m, cie, factors, initial, abs, s, a, i);
    } else {
      HeadAndRest(m, s.p, FirstByte(i), Operands(i));
      if i.SaveIn? {
        SaveInDeparts(m, cie, factors, initial, abs, s, a, i);
      } else if !i.RememberState? {
        RedefinitionDeparts(m, cie, factors, initial, abs, s, a, i);
      }
    }
  }

  lemma {:induction false} SaveInDeparts(m: Mem, cie: Cie, factors: Factors, initial: Row, abs: Frame, s: CfiState,
                                         a: Progress, i: Instruction)
    requires Encodable(i) && i.SaveIn? && HasFactors(cie, factors) && IsProgress(m, s, a) && NoneHeld(a.frame)
    requires Read8(m, s.p) == Ok(FirstByte(i)) && Holds(m, s.p + 1, Operands(i)) && s.p + 1 + |Operands(i)| < TWO64
    ensures !Does(m, Step(m, cie, initial, s), s.p + |Encode(i)|, Do(factors, abs, a, i))
  {
    RowDecodes(m, cie, factors.data, initial, s.p + 1, s.row, i);
    if Known(i) {
      RuleNotHeld(m, factors.data, initial, s.row, s.p + 1, i, a.frame, Do(factors, abs, a, i).frame);
    }
  }

  /** The register gets the rule of the other one, which is never that of DW_CFA_register. */
  lemma {:induction false} RuleNotHeld(m: Mem, data: int, initial: Row, row: Row, p: int, i: Instruction, f: Frame,
                                       g: Frame)
    requires Encodable(i) && i.SaveIn? && Known(i) && IsFrame(m, row, f) && NoneHeld(f)
    requires i.reg in g.rules && g.rules[i.reg].HeldIn?
    ensures !IsFrame(m, RowAfter(data, initial, row, p, i), g)
  {
    assert IsRule(m, row.rules[i.other], i.other, f);
    var after := RowAfter(data, initial, row, p, i);
    assert after.rules[i.reg].rule == row.rules[i.other].rule != InRegister;
    assert !IsRule(m, after.rules[i.reg], i.reg, g);
  }

  lemma {:induction false} RedefinitionDeparts(m: Mem, cie: Cie, factors: Factors, initial: Row, abs: Frame,
                                               s: CfiState,
                                               a: Progress, i: Instruction)
    requires Encodable(i) && (i.DefCfa? || i.DefCfaFactored?) && a.frame.cfa.ByExpression?
    requires HasFactors(cie, factors) && IsProgress(m, s, a)
    requires Read8(m, s.p) == Ok(FirstByte(i)) && Holds(m, s.p + 1, Operands(i)) && s.p + 1 + |Operands(i)| < TWO64
    ensures !Does(m, Step(m, cie, initial, s), s.p + |Encode(i)|, Do(factors, abs, a, i))
  {
    RowDecodes(m, cie, factors.data, initial, s.p + 1, s.row, i);
    PlainOpcode(i);
  }

  /**
   DW_CFA_set_loc gives an absolute address, and the machine counts locations from the start of
   the function: the location it moves to is the one meant if and only if the function starts at
   address zero.
   */
  lemma {:induction false} SetLocMeans(m: Mem, cie: Cie, initial: Row, s: CfiState, a: Progress, pcBegin: u64,
                                       address: u64, q: int)
    requires Read8(m, s.p) == Ok(CFA_SET_LOC) && cie.pointerEncoding < 256 && IsProgress(m, s, a)
    requires PointerWritten(m, s.p + 1, address, cie.pointerEncoding, q)
    ensures Does(m, Step(m, cie, initial, s), q, a.(loc := Wrap((address as int) - pcBegin))) <==> pcBegin == 0
  {
    SetLocMoves(m, cie, initial, s, address, q);
    SameDistance(address, pcBegin);
  }

  lemma {:induction false} SetLocMoves(m: Mem, cie: Cie, initial: Row, s: CfiState, address: u64, q: int)
    requires Read8(m, s.p) == Ok(CFA_SET_LOC) && cie.pointerEncoding < 256
    requires PointerWritten(m, s.p + 1, address, cie.pointerEncoding, q)
    ensures Step(m, cie, initial, s) == Ok(s.(p := q, loc := address))
  {
    PointerRead(m, s.p + 1, address, cie.pointerEncoding, q);
    assert Moved(m, cie, CFA_SET_LOC, CFA_SET_LOC, s.p + 1, s.loc) == Ok((q, address));
  }

  lemma {:induction false} SameDistance(address: u64, start: u64)
    ensures Wrap(Wrap((address as int) - start)) == address <==> start == 0
  {
    assert Wrap((address as int) - start) == if address >= start then address - start else address - start + TWO64;
  }

  lemma {:induction false} PlainOpcode(i: Instruction)
    requires Encodable(i) && ChangesFrame(i)
    ensures var opcode := Opcode(FirstByte(i));
            !IsAdvance(opcode) && opcode !in {CFA_SET_LOC, CFA_REMEMBER_STATE, CFA_RESTORE_STATE}
  {
  }

  /////////////////////////////////////////////////////////////////////////////
  // Programs
  /////////////////////////////////////////////////////////////////////////////

  /** Every instruction of the program can be encoded and applies where the program comes to it. */
  predicate Runs(factors: Factors, initial: Frame, a: Progress, program: seq<Instruction>)
    decreases |program|
  {
    program == [] ||
    (Encodable(program[0]) && Applicable(program[0], a)
     && Runs(factors, initial, Do(factors, initial, a, program[0]), program[1..]))
  }

  datatype Entry = Entry(loc: nat, frame: Frame)

  /** The table of section 6.4.1, from the meanings alone. */
  function Entries(factors: Factors, initial: Frame, a: Progress, program: seq<Instruction>): (t: seq<Entry>)
    requires Runs(factors, initial, a, program)
    ensures t != []
    decreases |program|
  {
    if program == [] then [Entry(a.loc, a.frame)]
    else
      var rest := Entries(factors, initial, Do(factors, initial, a, program[0]), program[1..]);
      if program[0].Advance? then [Entry(a.loc, a.frame)] + rest else rest
  }

  function Code(factors: Factors, initial: Frame, a: Progress, program: seq<Instruction>): seq<byte>
    requires Runs(factors, initial, a, program)
    decreases |program|
  {
    if program == [] then []
    else Encode(program[0]) + Code(factors, initial, Do(factors, initial, a, program[0]), program[1..])
  }

  /** The rows of a table stand for these entries. */
  ghost predicate IsTable(m: Mem, t: seq<TableRow>, entries: seq<Entry>) {
    |t| == |entries| && forall k | 0 <= k < |t| :: IsEntry(m, t[k], entries[k])
  }

  ghost predicate IsEntry(m: Mem, r: TableRow, e: Entry) {
    r.loc == Wrap(e.loc) && IsFrame(m, r.row, e.frame)
  }

  /** The code lies in memory from p up to the end. */
  ghost predicate Fills(m: Mem, p: int, end: int, code: seq<byte>) {
    Holds(m, p, code) && 0 <= p && end == p + |code| < TWO64
  }

  /** The machine's table of an assembled program is the program's. */
  lemma {:induction false} TableMeans(m: Mem, cie: Cie, factors: Factors, initial: Row, abs: Frame, end: int,
                                      s: CfiState, a: Progress,
                                      program: seq<Instruction>)
    requires Runs(factors, abs, a, program) && HasFactors(cie, factors) && IsProgress(m, s, a)
    requires IsFrame(m, initial, abs)
    requires Fills(m, s.p, end, Code(factors, abs, a, program))
    ensures Table(m, cie, initial, end, s).Ok?
    ensures IsTable(m, Table(m, cie, initial, end, s).value, Entries(factors, abs, a, program))
    decreases |program|
  {
    if program != [] {
      var i, a' := program[0], Do(factors, abs, a, program[0]);
      var rest := Code(factors, abs, a', program[1..]);
      FirstStep(m, cie, factors, initial, abs, end, s, a, i, rest);
      var next := Step(m, cie, initial, s).value;
      TableMeans(m, cie, factors, initial, abs, end, next, a', program[1..]);
      TableAdds(m, cie, initial, end, s, next, a, i, Table(m, cie, initial, end, next).value,
                Entries(factors, abs, a', program[1..]));
    }
  }

  lemma {:induction false} TableAdds(m: Mem, cie: Cie, initial: Row, end: int, s: CfiState, next: CfiState, a: Progress,
                                     i: Instruction, t: seq<TableRow>, entries: seq<Entry>)
    requires s.p < end && Step(m, cie, initial, s) == Ok(next) && Table(m, cie, initial, end, next) == Ok(t)
    requires (StartsRow(m, s.p) <==> i.Advance?) && IsProgress(m, s, a) && IsTable(m, t, entries)
    ensures var table := Table(m, cie, initial, end, s);
            table.Ok? && IsTable(m, table.value, if i.Advance? then [Entry(a.loc, a.frame)] + entries else entries)
  {
    TableStep(m, cie, initial, end, s, next, t);
    EntryAdded(m, s, a, t, entries);
  }

  lemma {:induction false} FirstStep(m: Mem, cie: Cie, factors: Factors, initial: Row, abs: Frame, end: int,
                                     s: CfiState, a: Progress, i: Instruction, rest: seq<byte>)
    requires Encodable(i) && Applicable(i, a) && HasFactors(cie, factors) && IsProgress(m, s, a)
    requires IsFrame(m, initial, abs) && Fills(m, s.p, end, Encode(i) + rest)
    ensures var next := Step(m, cie, initial, s);
            && next.Ok? && IsProgress(m, next.value, Do(factors, abs, a, i))
            && s.p < end && Fills(m, next.value.p, end, rest)
    ensures StartsRow(m, s.p) <==> i.Advance?
  {
    HoldsConcat(m, s.p, Encode(i), rest);
    StepDoes(m, cie, factors, initial, abs, s, a, i);
  }

  lemma {:induction false} TableStep(m: Mem, cie: Cie, initial: Row, end: int, s: CfiState, next: CfiState,
                                     t: seq<TableRow>)
    requires s.p < end && Step(m, cie, initial, s) == Ok(next) && Table(m, cie, initial, end, next) == Ok(t)
    ensures Table(m, cie, initial, end, s) == Ok(if StartsRow(m, s.p) then [TableRow(s.loc, s.row)] + t else t)
  {
  }

  lemma {:induction false} EntryAdded(m: Mem, s: CfiState, a: Progress, t: seq<TableRow>, entries: seq<Entry>)
    requires IsProgress(m, s, a) && IsTable(m, t, entries)
    ensures IsTable(m, [TableRow(s.loc, s.row)] + t, [Entry(a.loc, a.frame)] + entries)
  {
    assert IsEntry(m, TableRow(s.loc, s.row), Entry(a.loc, a.frame));
  }

  /** Entry k is the one for this location: the last that does not lie past it. */
  predicate IsEntryFor(entries: seq<Entry>, target: u64, k: nat) {
    k < |entries| && entries[k].loc <= target && forall j | k < j < |entries| :: entries[j].loc > target
  }

  lemma {:induction false} EntriesGrow(factors: Factors, initial: Frame, a: Progress, program: seq<Instruction>)
    requires Runs(factors, initial, a, program)
    ensures var t := Entries(factors, initial, a, program);
            t[0].loc == a.loc && forall j, k | 0 <= j < k < |t| :: t[j].loc <= t[k].loc
    decreases |program|
  {
    if program != [] {
      EntriesGrow(factors, initial, Do(factors, initial, a, program[0]), program[1..]);
    }
  }

  lemma {:induction false} SameLocations(m: Mem, t: seq<TableRow>, entries: seq<Entry>)
    requires IsTable(m, t, entries) && forall e <- entries :: e.loc < TWO64
    ensures forall j | 0 <= j < |t| :: t[j].loc == entries[j].loc
  {
    forall j | 0 <= j < |t|
      ensures t[j].loc == entries[j].loc
    {
      assert IsEntry(m, t[j], entries[j]) && entries[j] in entries;
    }
  }

  lemma {:induction false} TableLookup(t: seq<TableRow>, entries: seq<Entry>, target: u64) returns (k: nat)
    requires |t| == |entries| > 0 && entries[0].loc == 0 && forall j | 0 <= j < |t| :: t[j].loc == entries[j].loc
    requires forall j, k | 0 <= j < k < |entries| :: entries[j].loc <= entries[k].loc
    ensures k < |t| && k + 1 == FirstPast(t, target) && IsEntryFor(entries, target, k)
  {
    k := FirstPast(t, target) - 1;
  }

  /** The bytes from p to end are those of the program, which starts at this frame. */
  ghost predicate Stored(m: Mem, p: int, end: int, factors: Factors, initial: Frame, program: seq<Instruction>) {
    && Runs(factors, initial, Progress(0, initial, []), program)
    && Fills(m, p, end, Code(factors, initial, Progress(0, initial, []), program))
  }

  /** The entries of such a program, all of them below 2^64. */
  function EntriesOf(factors: Factors, initial: Frame, program: seq<Instruction>): (t: seq<Entry>)
    requires Runs(factors, initial, Progress(0, initial, []), program)
    ensures t != []
  {
    Entries(factors, initial, Progress(0, initial, []), program)
  }

  predicate LocationsBelow(entries: seq<Entry>) {
    forall e <- entries :: e.loc < TWO64
  }

  /**
   The bytes from p on begin with the program, and it is all there is up to `end` or has an entry
   past the target.
   */
  ghost predicate StoredTo(m: Mem, p: int, end: int, factors: Factors, initial: Frame, program: seq<Instruction>,
                           target: u64)
  {
    && Runs(factors, initial, Progress(0, initial, []), program) && end < TWO64
    && var stop, entries := p + |CodeOf(factors, initial, program)|, EntriesOf(factors, initial, program);
       && stop <= end && Stored(m, p, stop, factors, initial, program)
       && (stop == end || entries[|entries| - 1].loc > target)
  }

  function CodeOf(factors: Factors, initial: Frame, program: seq<Instruction>): seq<byte>
    requires Runs(factors, initial, Progress(0, initial, []), program)
  {
    Code(factors, initial, Progress(0, initial, []), program)
  }

  /**
   The early-stopping loop on an assembled program returns the row that stands for the program's
   entry for the target, for every program whose locations stay below 2^64.  Whatever stands behind
   an entry past the target need be no program at all.
   */
  lemma {:induction false} LookupMeans(m: Mem, cie: Cie, factors: Factors, row: Row, initial: Frame, end: int, p: int,
                                       program: seq<Instruction>, target: u64) returns (k: nat)
    requires StoredTo(m, p, end, factors, initial, program, target)
    requires HasFactors(cie, factors) && IsFrame(m, row, initial)
    requires LocationsBelow(EntriesOf(factors, initial, program))
    ensures var entries := EntriesOf(factors, initial, program);
            var found := RunTo(m, cie, row, end, target, Start(p, row));
            IsEntryFor(entries, target, k) && found.Ok? && IsFrame(m, found.value, entries[k].frame)
  {
    var a, s, stop := Progress(0, initial, []), Start(p, row), p + |CodeOf(factors, initial, program)|;
    TableMeans(m, cie, factors, row, initial, stop, s, a, program);
    EntriesGrow(factors, initial, a, program);
    var t, entries := Table(m, cie, row, stop, s).value, EntriesOf(factors, initial, program);
    SameLocations(m, t, entries);
    k := TableLookup(t, entries, target);
    RunToIsPrefixLookup(m, cie, row, end, target, s, stop);
    assert IsEntry(m, t[k], entries[k]);
  }

  /** A CIE's initial instructions move no location: all of them run. */
  predicate MovesNot(program: seq<Instruction>) {
    forall i <- program :: !i.Advance?
  }

  lemma {:induction false} OneEntry(factors: Factors, initial: Frame, a: Progress, program: seq<Instruction>)
    requires Runs(factors, initial, a, program) && MovesNot(program)
    ensures |Entries(factors, initial, a, program)| == 1 && Entries(factors, initial, a, program)[0].loc == a.loc
    decreases |program|
  {
    if program != [] {
      OneEntry(factors, initial, Do(factors, initial, a, program[0]), program[1..]);
    }
  }

  /** The frame a CIE's program describes. */
  function InitialFrame(factors: Factors, program: seq<Instruction>): Frame
    requires Runs(factors, FRESH_FRAME, Progress(0, FRESH_FRAME, []), program)
  {
    EntriesOf(factors, FRESH_FRAME, program)[0].frame
  }

  lemma {:induction false} InitialRowMeans(m: Mem, cie: Cie, factors: Factors, program: seq<Instruction>)
    requires HasFactors(cie, factors) && MovesNot(program)
    requires Stored(m, cie.instructions, cie.extent.end, factors, FRESH_FRAME, program)
    ensures InitialRow(m, cie).Ok? && IsFrame(m, InitialRow(m, cie).value, InitialFrame(factors, program))
  {
    DefaultRowIsFresh(m);
    OneEntry(factors, FRESH_FRAME, Progress(0, FRESH_FRAME, []), program);
    var k := LookupMeans(m, cie, factors, DefaultRow(), FRESH_FRAME, cie.extent.end, cie.instructions, program, 0);
  }

  /**
   An FDE and its CIE that hold assembled programs, and the entries that these mean; the program of
   the FDE may end behind an entry past the instruction pointer.
   */
  ghost predicate Describes(m: Mem, fde: Fde, ip: u64, factors: Factors, common: seq<Instruction>,
                            own: seq<Instruction>, entries: seq<Entry>) {
    && HasFactors(fde.cie, factors) && MovesNot(common)
    && Stored(m, fde.cie.instructions, fde.cie.extent.end, factors, FRESH_FRAME, common)
    && var initial := InitialFrame(factors, common);
       && StoredTo(m, fde.instructions, fde.extent.end, factors, initial, own, LocationOf(fde, ip))
       && entries == EntriesOf(factors, initial, own) && LocationsBelow(entries)
  }

  /** The location of an instruction pointer in the table of its function. */
  function LocationOf(fde: Fde, ip: u64): u64 {
    Wrap((ip as int) - fde.pcBegin)
  }

  /** Entry k is the one for the instruction pointer. */
  predicate IsEntryAt(fde: Fde, ip: u64, entries: seq<Entry>, k: nat) {
    IsEntryFor(entries, LocationOf(fde, ip), k)
  }

  /**
   private_decode_cfi, on a CIE and an FDE that hold assembled programs, decodes the row of the
   frame that the two programs mean for the instruction pointer.
   */
  lemma {:induction false} DecodedFrame(m: Mem, fde: Fde, ip: u64, factors: Factors, common: seq<Instruction>,
                                        own: seq<Instruction>,
                                        entries: seq<Entry>) returns (row: Row, k: nat)
    requires Describes(m, fde, ip, factors, common, own, entries)
    ensures IsEntryAt(fde, ip, entries, k)
    ensures DecodeCfi(m, fde, ip) == Ok(row) && IsFrame(m, row, entries[k].frame)
  {
    InitialRowMeans(m, fde.cie, factors, common);
    var first := InitialRow(m, fde.cie).value;
    DecodedFrom(m, fde, ip, first);
    k := LookupMeans(m, fde.cie, factors, first, InitialFrame(factors, common), fde.extent.end, fde.instructions, own,
                     LocationOf(fde, ip));
    row := DecodeCfi(m, fde, ip).value;
  }

  lemma {:induction false} DecodedFrom(m: Mem, fde: Fde, ip: u64, first: Row)
    requires InitialRow(m, fde.cie) == Ok(first)
    ensures DecodeCfi(m, fde, ip) ==
            RunTo(m, fde.cie, first, fde.extent.end, LocationOf(fde, ip), Start(fde.instructions, first))
  {
  }

  /////////////////////////////////////////////////////////////////////////////
  // Where the machine departs from the meaning
  /////////////////////////////////////////////////////////////////////////////

  /** Redefining a CFA that is an expression leaves it one: the type field is never reset. */
  lemma {:induction false} CfaStaysExpression(m: Mem, cie: Cie, data: int, initial: Row, p: int, row: Row,
                                              i: Instruction)
    requires Encodable(i) && RedefinesCfa(i) && cie.dataAlignment == Wrap(data) && Holds(m, p, Operands(i))
    ensures var b := FirstByte(i);
            var r := RowInstruction(m, cie, initial, Opcode(b), b % 64, p, row);
            r.Ok? && (r.value.1.cfa.isExpression <==> row.cfa.isExpression)
  {
    CfaDecodes(m, cie, data, initial, p, row, i);
  }

  /** No rule of the row says that a register is saved in another register. */
  predicate NeverInRegister(row: Row) {
    forall k | 0 <= k < 32 :: row.rules[k].rule != InRegister
  }

  /**
   DW_CFA_register is meant to say so, but copies the kind of the other register's rule, and no
   other instruction sets that kind: the rule occurs in no row of any program.
   */
  lemma {:induction false} InRegisterUnreachable(m: Mem, cie: Cie, initial: Row, s: CfiState, n: nat)
    requires NeverInRegister(initial) && NeverInRegister(s.row) && forall r <- s.saved :: NeverInRegister(r)
    requires After(m, cie, initial, s, n).Ok?
    ensures NeverInRegister(After(m, cie, initial, s, n).value.row)
    decreases n
  {
    if n > 0 {
      InRegisterNotSet(m, cie, initial, s);
      InRegisterUnreachable(m, cie, initial, Step(m, cie, initial, s).value, n - 1);
    }
  }

  lemma {:induction false} InRegisterNotSet(m: Mem, cie: Cie, initial: Row, s: CfiState)
    requires NeverInRegister(initial) && NeverInRegister(s.row) && forall r <- s.saved :: NeverInRegister(r)
    requires Step(m, cie, initial, s).Ok?
    ensures var next := Step(m, cie, initial, s).value;
            NeverInRegister(next.row) && forall r <- next.saved :: NeverInRegister(r)
  {
    var b := m[s.p];
    RowNotSet(m, cie, initial, Opcode(b), b % 64, s.p + 1, s.row);
  }

  lemma {:induction false} RowNotSet(m: Mem, cie: Cie, initial: Row, opcode: byte, operand: byte, p: int, row: Row)
    requires NeverInRegister(initial) && NeverInRegister(row)
    ensures var r := RowInstruction(m, cie, initial, opcode, operand, p, row); r.Ok? ==> NeverInRegister(r.value.1)
  {
  }
}
