/**
 What the operators of the expression machine mean, apart from how the machine computes them.  The
 ones with two operands (section 2.5.1.4 of DWARF 4): integer arithmetic modulo 2^64, bits one by
 one, and unsigned comparisons with the lower operand on the left.  The ones that rearrange the
 stack (section 2.5.1.3): where each word comes from.  And the branches (section 2.5.1.5).
 */
module Operators {
  import opened Words
  import opened Memory
  import opened Registers
  import opened Expression

  /////////////////////////////////////////////////////////////////////////////
  // Bits
  /////////////////////////////////////////////////////////////////////////////

  /** The bit of weight 2^i. */
  predicate BitOf(x: nat, i: nat)
    decreases i
  {
    if i == 0 then x % 2 == 1 else BitOf(x / 2, i - 1)
  }

  lemma {:induction false} BitOfValue(x: nat, i: nat)
    ensures BitOf(x, i) <==> (x / Pow2(i)) % 2 == 1
    decreases i
  {
    if i > 0 {
      BitOfValue(x / 2, i - 1);
      QuotientOfHalf(x, Pow2(i - 1));
    }
  }

  lemma {:induction false} QuotientOfHalf(x: nat, p: nat)
    requires p >= 1
    ensures (x / 2) / p == x / (2 * p)
  {
    var h := x / 2;
    var q, r := h / p, h % p;
    assert h == p * q + r;
    assert 2 * (p * q) == (2 * p) * q;
    ModUnique(x, 2 * p, q, 2 * r + x % 2);
  }

  /** What a bitwise operator does with two bits. */
  predicate BitMeaning(opcode: byte, a: bool, b: bool) {
    if opcode == 0x1A then a && b else if opcode == 0x21 then a || b else a != b
  }

  function Weight(b: bool, i: nat): nat {
    if b then Pow2(i) else 0
  }

  /** The number with n bits that has bit i exactly if the operator says so of bits i of x and y. */
  function BitsMeaning(opcode: byte, x: nat, y: nat, n: nat): nat {
    if n == 0 then 0
    else BitsMeaning(opcode, x, y, n - 1) + Weight(BitMeaning(opcode, BitOf(x, n - 1), BitOf(y, n - 1)), n - 1)
  }

  lemma {:induction false} BitsFromBelow(opcode: byte, x: nat, y: nat, n: nat)
    requires n > 0
    ensures BitsMeaning(opcode, x, y, n) ==
            Weight(BitMeaning(opcode, BitOf(x, 0), BitOf(y, 0)), 0) + 2 * BitsMeaning(opcode, x / 2, y / 2, n - 1)
    decreases n
  {
    if n > 1 {
      BitsFromBelow(opcode, x, y, n - 1);
      assert BitOf(x, n - 1) == BitOf(x / 2, n - 2) && BitOf(y, n - 1) == BitOf(y / 2, n - 2);
    }
  }

  /** Bit i of the result. */
  lemma {:induction false} BitOfBits(opcode: byte, x: nat, y: nat, n: nat, i: nat)
    ensures BitOf(BitsMeaning(opcode, x, y, n), i) <==> i < n && BitMeaning(opcode, BitOf(x, i), BitOf(y, i))
    decreases n
  {
    if n == 0 {
      NoBits(i);
    } else {
      BitsFromBelow(opcode, x, y, n);
      if i > 0 {
        BitOfBits(opcode, x / 2, y / 2, n - 1, i - 1);
        var low := Weight(BitMeaning(opcode, BitOf(x, 0), BitOf(y, 0)), 0);
        assert low < 2 && (low + 2 * BitsMeaning(opcode, x / 2, y / 2, n - 1)) / 2 ==
                          BitsMeaning(opcode, x / 2, y / 2, n - 1);
      }
    }
  }

  lemma {:induction false} NoBits(i: nat)
    ensures !BitOf(0, i)
    decreases i
  {
    if i > 0 {
      NoBits(i - 1);
    }
  }

  predicate GateFor(opcode: byte, g: Gate) {
    (opcode == 0x1A && g == AndGate) || (opcode == 0x21 && g == OrGate) || (opcode == 0x27 && g == XorGate)
  }

  /** The operators of the machine, digit by digit, are these. */
  lemma {:induction false} GateMeans(opcode: byte, g: Gate, x: nat, y: nat, n: nat)
    requires GateFor(opcode, g) && x < Pow2(n) && y < Pow2(n)
    ensures Bits(g, x, y) == BitsMeaning(opcode, x, y, n)
    decreases n
  {
    if n > 0 {
      BitsFromBelow(opcode, x, y, n);
      GateMeans(opcode, g, x / 2, y / 2, n - 1);
    }
  }

  lemma {:induction false} WordGate(opcode: byte, g: Gate, x: u64, y: u64)
    requires GateFor(opcode, g)
    ensures BitsMeaning(opcode, x, y, 64) == Bits64(g, x, y)
  {
    Pow2Values();
    GateMeans(opcode, g, x, y, 64);
  }

  /////////////////////////////////////////////////////////////////////////////
  // All operators
  /////////////////////////////////////////////////////////////////////////////

  predicate IsBitwise(opcode: byte) {
    opcode in {0x1A, 0x21, 0x27}
  }

  function BitwiseMeaning(opcode: byte, x: u64, y: u64): (r: u64)
    requires IsBitwise(opcode)
  {
    WordGate(opcode, if opcode == 0x1A then AndGate else if opcode == 0x21 then OrGate else XorGate, x, y);
    BitsMeaning(opcode, x, y, 64)
  }

  /** The bits of a bitwise result. */
  lemma {:induction false} BitwiseBits(opcode: byte, x: u64, y: u64, i: nat)
    requires IsBitwise(opcode) && i < 64
    ensures var r := BitwiseMeaning(opcode, x, y);
            && (opcode == 0x1A ==> (BitOf(r, i) <==> BitOf(x, i) && BitOf(y, i)))
            && (opcode == 0x21 ==> (BitOf(r, i) <==> BitOf(x, i) || BitOf(y, i)))
            && (opcode == 0x27 ==> (BitOf(r, i) <==> BitOf(x, i) != BitOf(y, i)))
  {
    BitOfBits(opcode, x, y, 64, i);
  }

  predicate IsShift(opcode: byte) {
    opcode in {0x24, 0x25, 0x26}
  }

  /** A shift by s places: a product modulo 2^64, or a quotient rounded down, unsigned or signed. */
  function ShiftMeaning(opcode: byte, x: u64, s: nat): u64 {
    if opcode == 0x24 then Wrap(x * Pow2(s))
    else if opcode == 0x25 then Wrap(x / Pow2(s))
    else Wrap(Signed(x) / Pow2(s))
  }

  function OneIf(b: bool): u64 {
    if b then 1 else 0
  }

  /** The operators with two operands, by their codes (section 7.7.1 of DWARF 4); there is no division. */
  predicate IsOperation(opcode: byte) {
    IsBitwise(opcode) || IsShift(opcode) || opcode in {0x1C, 0x1E, 0x22} || 0x29 <= opcode <= 0x2E
  }

  /**
   The value of an operator for the lower operand x and the top operand y: and, or, xor; plus,
   minus, mul; shl, shr, shra; eq, ge, gt, le, lt, ne.
   */
  function BinaryMeaning(opcode: byte, x: u64, y: u64): Outcome<u64>
    requires IsOperation(opcode)
  {
    if IsBitwise(opcode) then Ok(BitwiseMeaning(opcode, x, y))
    else if IsShift(opcode) then (if y < 64 then Ok(ShiftMeaning(opcode, x, y)) else Fault)
    else match opcode
         case 0x22 => Ok(Wrap(x + y))
         case 0x1C => Ok(Wrap((x as int) - (y as int)))
         case 0x1E => Ok(Wrap(x * y))
         case 0x29 => Ok(OneIf(x == y))
         case 0x2A => Ok(OneIf(x >= y))
         case 0x2B => Ok(OneIf(x > y))
         case 0x2C => Ok(OneIf(x <= y))
         case 0x2D => Ok(OneIf(x < y))
         case _ => Ok(OneIf(x != y))
  }

  lemma {:induction false} ShiftMeans(opcode: byte, x: u64, s: nat)
    requires IsShift(opcode)
    ensures ShiftMeaning(opcode, x, s) ==
            if opcode == 0x24 then Shl(x, s) else if opcode == 0x25 then Shr(x, s) else Shra(x, s)
  {
    ShlValue(x, s);
    ShrValue(x, s);
    HalveIntValue(Signed(x), s);
    SmallWrap(Shr(x, s));
  }

  /** An arithmetic shift gives the rounded quotient itself. */
  lemma {:induction false} ShraSigned(x: u64, s: nat)
    ensures Signed(ShiftMeaning(0x26, x, s)) == Signed(x) / Pow2(s)
  {
    QuotientSmall(Signed(x), Pow2(s));
    SignedWrap(Signed(x) / Pow2(s));
  }

  lemma {:induction false} QuotientSmall(v: int, p: nat)
    requires IsSigned64(v) && p >= 1
    ensures IsSigned64(v / p)
  {
    var q, r := v / p, v % p;
    assert v == p * q + r;
    if q > 0 {
      MulAtLeast(q, p);
    } else if q < 0 {
      MulAtLeast(-q, p);
      assert p * q == -((-q) * p);
    }
  }

  lemma {:induction false} SmallWrap(x: u64)
    ensures Wrap(x) == x
  {
  }

  lemma {:induction false} BitwiseMeans(opcode: byte, x: u64, y: u64)
    requires IsBitwise(opcode)
    ensures IsBinary(opcode) && Binary(opcode, x, y) == Ok(BitwiseMeaning(opcode, x, y))
  {
    WordGate(opcode, if opcode == 0x1A then AndGate else if opcode == 0x21 then OrGate else XorGate, x, y);
  }

  /** The machine computes every operator as it is meant. */
  lemma {:induction false} BinaryMeans(opcode: byte, x: u64, y: u64)
    requires IsOperation(opcode)
    ensures IsBinary(opcode) && Binary(opcode, x, y) == BinaryMeaning(opcode, x, y)
  {
    if IsBitwise(opcode) {
      BitwiseMeans(opcode, x, y);
    } else if IsShift(opcode) {
      ShiftMeans(opcode, x, y);
    } else if opcode == 0x1E {
      ProductValue(x, y);
    }
  }

  /////////////////////////////////////////////////////////////////////////////
  // Rearranging the stack
  /////////////////////////////////////////////////////////////////////////////

  /** The word k places below the top. */
  function FromTop(stack: seq<u64>, k: nat): u64
    requires k < |stack|
  {
    stack[|stack| - 1 - k]
  }

  /** dup, drop, over, pick, swap, rot. */
  predicate Rearranges(opcode: byte) {
    0x12 <= opcode <= 0x17
  }

  /** The words that must be there; DW_OP_pick names one by its place, and a word stays on the stack. */
  function Needed(opcode: byte, place: nat): nat {
    match opcode
    case 0x12 => 1
    case 0x15 => place + 1
    case 0x17 => 3
    case _ => 2
  }

  function Growth(opcode: byte): int {
    if opcode == 0x13 then -1 else if opcode in {0x16, 0x17} then 0 else 1
  }

  /** The place that the word k places below the top had before. */
  function Origin(opcode: byte, place: nat, k: nat): nat {
    match opcode
    case 0x12 => if k == 0 then 0 else k - 1
    case 0x13 => k + 1
    case 0x14 => if k == 0 then 1 else k - 1
    case 0x15 => if k == 0 then place else k - 1
    case 0x16 => if k == 0 then 1 else if k == 1 then 0 else k
    case _ => if k < 2 then k + 1 else if k == 2 then 0 else k
  }

  predicate Rearranged(opcode: byte, place: nat, before: seq<u64>, after: seq<u64>) {
    && |after| == |before| + Growth(opcode)
    && forall k: nat | k < |after| ::
         Origin(opcode, place, k) < |before| && FromTop(after, k) == FromTop(before, Origin(opcode, place, k))
  }

  /** The instruction puts every word where it belongs if there are enough of them, and else aborts. */
  lemma {:induction false} ShuffleMoves(m: Mem, regs: RegisterFile, s: Machine, opcode: byte, place: byte)
    requires |s.stack| < 100 && Read8(m, s.p) == Ok(opcode) && Rearranges(opcode)
    requires opcode == 0x15 ==> Read8(m, s.p + 1) == Ok(place)
    ensures var r := Step(m, regs, s);
            if |s.stack| < Needed(opcode, place) then r == Abort
            else
              && r.Ok? && r.value.p == s.p + (if opcode == 0x15 then 2 else 1)
              && Rearranged(opcode, place, s.stack, r.value.stack)
  {
    assert Step(m, regs, s) == Shuffle(m, opcode, s.p + 1, s.stack);
  }

  /** DW_OP_xderef replaces the two top words by the word in memory at the upper one. */
  lemma {:induction false} XderefReads(m: Mem, regs: RegisterFile, s: Machine, word: u64)
    requires |s.stack| < 100 && Read8(m, s.p) == Ok(0x18)
    ensures |s.stack| < 2 || FromTop(s.stack, 0) == 0 ==> Step(m, regs, s) == Abort
    ensures |s.stack| >= 2 && FromTop(s.stack, 0) != 0 && Read64(m, FromTop(s.stack, 0)) == Ok(word) ==>
              var r := Step(m, regs, s);
              && r.Ok? && r.value.p == s.p + 1 && |r.value.stack| == |s.stack| - 1
              && FromTop(r.value.stack, 0) == word
              && forall k: nat | 0 < k < |r.value.stack| :: FromTop(r.value.stack, k) == FromTop(s.stack, k + 1)
  {
    assert Step(m, regs, s) == Shuffle(m, OP_XDEREF, s.p + 1, s.stack);
  }

  /** No instruction starts on a full stack. */
  lemma {:induction false} FullStackAborts(m: Mem, regs: RegisterFile, s: Machine)
    requires |s.stack| == 100 && Read8(m, s.p).Ok?
    ensures Step(m, regs, s) == Abort
  {
  }

  /////////////////////////////////////////////////////////////////////////////
  // Branches
  /////////////////////////////////////////////////////////////////////////////

  /** A branch by a signed distance of two bytes, from the end of the instruction. */
  function BranchCode(opcode: byte, distance: int): seq<byte>
    requires -0x8000 <= distance < 0x8000
  {
    [opcode] + LeBytes(if distance >= 0 then distance else distance + 0x1_0000, 2)
  }

  lemma {:induction false} DistanceRead(m: Mem, p: int, opcode: byte, distance: int)
    requires -0x8000 <= distance < 0x8000 && Holds(m, p, BranchCode(opcode, distance))
    ensures Read8(m, p) == Ok(opcode) && Displacement(m, p + 1) == Ok(distance)
  {
    var word := if distance >= 0 then distance else distance + 0x1_0000;
    HeadAndRest(m, p, opcode, LeBytes(word, 2));
    ReadStoredWord(m, p + 1, word, 2);
    SignedWrap(distance);
  }

  /** DW_OP_skip goes on `distance` bytes behind itself and leaves the stack alone. */
  lemma {:induction false} SkipGoes(m: Mem, regs: RegisterFile, s: Machine, distance: int)
    requires |s.stack| < 100 && -0x8000 <= distance < 0x8000 && Holds(m, s.p, BranchCode(0x2F, distance))
    ensures Step(m, regs, s) == Ok(ExprState(s.p + 3 + distance, s.stack))
  {
    DistanceRead(m, s.p, OP_SKIP, distance);
    assert Step(m, regs, s) == Branch(m, OP_SKIP, s.p + 1, s.stack);
  }

  /** DW_OP_bra takes a word off the stack and does so if it is not zero. */
  lemma {:induction false} BraGoes(m: Mem, regs: RegisterFile, s: Machine, distance: int)
    requires |s.stack| < 100 && -0x8000 <= distance < 0x8000 && Holds(m, s.p, BranchCode(0x28, distance))
    ensures var r := Step(m, regs, s);
            if |s.stack| < 2 then r == Abort
            else
              && r.Ok? && r.value.p == s.p + 3 + (if FromTop(s.stack, 0) == 0 then 0 else distance)
              && |r.value.stack| == |s.stack| - 1
              && forall k: nat | k < |r.value.stack| :: FromTop(r.value.stack, k) == FromTop(s.stack, k + 1)
  {
    DistanceRead(m, s.p, OP_BRA, distance);
    assert Step(m, regs, s) == Branch(m, OP_BRA, s.p + 1, s.stack);
  }
}
