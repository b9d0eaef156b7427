/**
 Machine words and outcomes shared by every module.

 A 64-bit word is an integer in [0, 2^64); wrap-around is always written out.  Bitwise
 operators are defined bit by bit on natural numbers, so that the shift-and-or loops of the
 source can be compared with plain base-128 arithmetic.
 */
module Words {

  const TWO63: int := 0x8000_0000_0000_0000
  const TWO64: int := 0x1_0000_0000_0000_0000
  const TWO32: int := 0x1_0000_0000

  type byte = x: int | 0 <= x < 256
  type u64 = x: int | 0 <= x < 0x1_0000_0000_0000_0000

  /**
   How a computation of the unwinder ends.
   - Ok: with a value.
   - Abort: the ABORT macro was reached, which prints and calls _exit.
   - Fault: C++ gives the step no meaning (a read of unmapped memory, a shift by 64 or more,
     a pointer that leaves the address space).
   - Timeout: a loop that the source does not bound has used up the step budget it was given.
   */
  datatype Outcome<+T> = Ok(value: T) | Abort | Fault | Timeout {
    predicate IsFailure() {
      !Ok?
    }

    function PropagateFailure<U>(): (r: Outcome<U>)
      requires !Ok?
    {
      match this
      case Abort => Abort
      case Fault => Fault
      case Timeout => Timeout
    }

    function Extract(): T
      requires Ok?
    {
      value
    }
  }

  datatype Option<+T> = None | Some(value: T)

  function Wrap(x: int): u64 {
    x % 0x1_0000_0000_0000_0000
  }

  /** The two's complement reading of a 64-bit word. */
  function Signed(x: u64): int {
    if x < TWO63 then x else x - TWO64
  }

  function SignedByte(x: byte): int {
    if x < 128 then x else x - 256
  }

  lemma {:induction false} WrapSigned(x: u64)
    ensures Wrap(Signed(x)) == x
  {
  }

  predicate IsSigned64(x: int) {
    -TWO63 <= x < TWO63
  }

  lemma {:induction false} SignedWrap(x: int)
    requires IsSigned64(x)
    ensures Signed(Wrap(x)) == x
  {
    if x < 0 {
      assert Wrap(x) == x + TWO64;
    }
  }

  /////////////////////////////////////////////////////////////////////////////
  // misc.h
  /////////////////////////////////////////////////////////////////////////////

  function Bfabs(value: int): u64
    requires -TWO63 <= value < TWO63
  {
    if value >= 0 then value else -value
  }

  /** add_offset: the offset is the signed reading of a 64-bit word. */
  function AddOffset(value: u64, offset: u64): Outcome<u64> {
    var distance := Bfabs(Signed(offset));
    if Signed(offset) >= 0 then Ok(Wrap(value + distance))
    else if value >= distance then Ok(Wrap(value - distance))
    else Abort
  }

  /**
   add_offset is exact integer addition precisely when the sum is a 64-bit value.  Below zero
   it aborts; above the top it is not checked and silently wraps.
   */
  lemma {:induction false} AddOffsetExact(value: u64, offset: u64)
    ensures var sum := value + Signed(offset);
            && (AddOffset(value, offset) == Ok(sum) <==> 0 <= sum < TWO64)
            && (AddOffset(value, offset).Abort? <==> sum < 0)
            && (sum >= TWO64 ==> AddOffset(value, offset) == Ok(sum - TWO64))
  {
    var sum := value + Signed(offset);
    if sum >= TWO64 {
      assert sum == (sum - TWO64) + TWO64;
    }
  }

  /** Where the sum stays an address, the checked addition of a signed offset gives it. */
  lemma {:induction false} AddOffsetReaches(base: u64, offset: int)
    requires IsSigned64(offset) && 0 <= base + offset < TWO64
    ensures AddOffset(base, Wrap(offset)) == Ok(base + offset)
  {
    SignedWrap(offset);
    AddOffsetExact(base, Wrap(offset));
  }

  /////////////////////////////////////////////////////////////////////////////
  // Powers of two
  /////////////////////////////////////////////////////////////////////////////

  function Pow2(n: nat): (p: nat)
    ensures p >= 1
  {
    if n == 0 then 1 else 2 * Pow2(n - 1)
  }

  lemma {:induction false} Pow2Add(a: nat, b: nat)
    ensures Pow2(a + b) == Pow2(a) * Pow2(b)
  {
    if a > 0 {
      Pow2Add(a - 1, b);
    }
  }

  lemma {:induction false} Pow2Values()
    ensures Pow2(7) == 0x80
    ensures Pow2(8) == 0x100
    ensures Pow2(16) == 0x1_0000
    ensures Pow2(32) == TWO32
    ensures Pow2(63) == TWO63
    ensures Pow2(64) == TWO64
  {
    assert Pow2(4) == 0x10;
    Pow2Add(4, 4);
    assert Pow2(8) == 2 * Pow2(7);
    Pow2Add(8, 8);
    Pow2Add(16, 16);
    Pow2Add(32, 32);
    assert Pow2(64) == 2 * Pow2(63);
  }

  lemma {:induction false} Pow2Monotone(a: nat, b: nat)
    requires a <= b
    ensures Pow2(a) <= Pow2(b)
    decreases b - a
  {
    if a < b {
      Pow2Monotone(a + 1, b);
    }
  }

  lemma {:induction false} Pow2Times128(k: nat)
    ensures Pow2(k + 7) == 128 * Pow2(k)
  {
    Pow2Values();
    Pow2Add(7, k);
  }

  lemma {:induction false} Pow2Word(s: nat)
    requires s < 64
    ensures Pow2(s) <= TWO63
  {
    Pow2Monotone(s, 63);
    Pow2Values();
  }

  lemma {:induction false} Pow2Split(s: nat)
    requires s <= 64
    ensures Pow2(64 - s) * Pow2(s) == TWO64
  {
    Pow2Add(64 - s, s);
    Pow2Values();
  }

  /////////////////////////////////////////////////////////////////////////////
  // Bitwise operators
  /////////////////////////////////////////////////////////////////////////////

  datatype Gate = AndGate | OrGate | XorGate

  function GateBit(g: Gate, a: nat, b: nat): nat
    requires a < 2 && b < 2
  {
    match g
    case AndGate => if a == 1 && b == 1 then 1 else 0
    case OrGate => if a == 1 || b == 1 then 1 else 0
    case XorGate => if a != b then 1 else 0
  }

  /** The gate applied to every binary digit of a and b. */
  function Bits(g: Gate, a: nat, b: nat): nat
    decreases a + b
  {
    if a == 0 && b == 0 then 0
    else GateBit(g, a % 2, b % 2) + 2 * Bits(g, a / 2, b / 2)
  }

  lemma {:induction false} BitsBound(g: Gate, a: nat, b: nat, k: nat)
    requires a < Pow2(k) && b < Pow2(k)
    ensures Bits(g, a, b) < Pow2(k)
    decreases k
  {
    if k > 0 && (a != 0 || b != 0) {
      BitsBound(g, a / 2, b / 2, k - 1);
    }
  }

  function Bits64(g: Gate, a: u64, b: u64): u64 {
    Pow2Values();
    BitsBound(g, a, b, 64);
    Bits(g, a, b)
  }

  /** One digit of a gate: the quotients and remainders by two, by name. */
  lemma {:induction false} BitsStep(g: Gate, a: nat, b: nat, aHigh: nat, aLow: nat, bHigh: nat, bLow: nat)
    requires aLow < 2 && bLow < 2
    requires a == 2 * aHigh + aLow && b == 2 * bHigh + bLow
    ensures Bits(g, a, b) == GateBit(g, aLow, bLow) + 2 * Bits(g, aHigh, bHigh)
  {
    assert a / 2 == aHigh && a % 2 == aLow && b / 2 == bHigh && b % 2 == bLow;
  }

  lemma {:induction false} OrZero(b: nat)
    ensures Bits(OrGate, 0, b) == b
  {
    if b > 0 {
      OrZero(b / 2);
    }
  }

  /** Or-ing in a value whose low k digits are zero adds it to a value below 2^k. */
  lemma {:induction false} OrDisjoint(a: nat, b: nat, k: nat)
    requires a < Pow2(k)
    ensures Bits(OrGate, a, b * Pow2(k)) == a + b * Pow2(k)
    decreases k
  {
    if k == 0 {
      OrZero(b);
    } else {
      OrDisjoint(a / 2, b, k - 1);
      DoubleRight(b, Pow2(k - 1));
      BitsStep(OrGate, a, b * Pow2(k), a / 2, a % 2, b * Pow2(k - 1), 0);
    }
  }

  lemma {:induction false} DoubleRight(x: int, y: int)
    ensures x * (2 * y) == 2 * (x * y)
  {
  }

  lemma {:induction false} AndZero(a: nat)
    ensures Bits(AndGate, a, 0) == 0
  {
    if a > 0 {
      AndZero(a / 2);
    }
  }

  /** Quotient and remainder are determined by their defining equation. */
  lemma {:induction false} ModUnique(x: int, m: int, q: int, r: int)
    requires 0 <= r < m && x == m * q + r
    ensures x % m == r && x / m == q
  {
    var q', r' := x / m, x % m;
    if q' > q {
      MulAtLeast(m, q' - q);
      MulDistributes(m, q', q);
    } else if q' < q {
      MulAtLeast(m, q - q');
      MulDistributes(m, q, q');
    }
  }

  lemma {:induction false} MulAtLeast(m: int, d: int)
    requires m >= 0 && d >= 1
    ensures m * d >= m
  {
  }

  lemma {:induction false} MulDistributes(m: int, a: int, b: int)
    ensures m * (a - b) == m * a - m * b
  {
  }

  /** Bitwise complement. */
  function Not64(x: u64): u64 {
    TWO64 - 1 - x
  }

  /** The shifts, one place at a time. */
  function Shl(x: u64, s: nat): u64 {
    if s == 0 then x else Wrap(2 * Shl(x, s - 1))
  }

  function Shr(x: u64, s: nat): u64 {
    if s == 0 then x else Shr(x, s - 1) / 2
  }

  function Shra(x: u64, s: nat): u64 {
    Wrap(HalveInt(Signed(x), s))
  }

  function HalveInt(v: int, s: nat): int {
    if s == 0 then v else HalveInt(v, s - 1) / 2
  }

  /** Multiplication by repeated addition: see ProductValue. */
  function Product(a: nat, b: nat): nat {
    if b == 0 then 0 else Product(a, b - 1) + a
  }

  lemma {:induction false} ProductValue(a: nat, b: nat)
    ensures Product(a, b) == a * b
  {
    if b > 0 {
      ProductValue(a, b - 1);
      assert a * b == a * (b - 1) + a;
    }
  }

  /** Shifting left multiplies by 2^s modulo 2^64. */
  lemma {:induction false} ShlValue(x: u64, s: nat)
    ensures Shl(x, s) == Wrap(x * Pow2(s))
  {
    if s > 0 {
      ShlValue(x, s - 1);
      DoubleRight(x, Pow2(s - 1));
      WrapDouble(x * Pow2(s - 1));
    }
  }

  lemma {:induction false} WrapDouble(y: int)
    ensures Wrap(2 * Wrap(y)) == Wrap(2 * y)
  {
    var q, r := y / TWO64, Wrap(y);
    ModUnique(2 * y, TWO64, 2 * q + (2 * r) / TWO64, (2 * r) % TWO64);
  }

  /** Shifting right divides by 2^s, rounding down; the arithmetic shift does so for signed words. */
  lemma {:induction false} ShrValue(x: u64, s: nat)
    ensures Shr(x, s) == x / Pow2(s)
  {
    if s > 0 {
      ShrValue(x, s - 1);
      HalfQuotient(x, Pow2(s - 1));
    }
  }

  lemma {:induction false} HalveIntValue(v: int, s: nat)
    ensures HalveInt(v, s) == v / Pow2(s)
  {
    if s > 0 {
      HalveIntValue(v, s - 1);
      HalfQuotient(v, Pow2(s - 1));
    }
  }

  lemma {:induction false} HalfQuotient(x: int, p: nat)
    requires p >= 1
    ensures (x / p) / 2 == x / (2 * p)
  {
    var q, r := x / p, x % p;
    assert (2 * p) * (q / 2) == p * (2 * (q / 2)) == p * (q - q % 2);
    MulDistributes(p, q, q % 2);
    if q % 2 == 0 {
      ModUnique(x, 2 * p, q / 2, r);
    } else {
      ModUnique(x, 2 * p, q / 2, p + r);
    }
  }

  /** A left shift keeps the digits that still fit, moved up. */
  lemma {:induction false} ShlForm(x: u64, s: nat)
    requires s < 64
    ensures Shl(x, s) == (x % Pow2(64 - s)) * Pow2(s)
  {
    var m, p := Pow2(64 - s), Pow2(s);
    ShlValue(x, s);
    Pow2Split(s);
    ScaledMod(x, m, p);
  }

  lemma {:induction false} ScaledMod(x: nat, m: nat, p: nat)
    requires m >= 1 && p >= 1
    ensures m * p >= 1
    ensures (x * p) % (m * p) == (x % m) * p
  {
    var q, r := x / m, x % m;
    assert m * p >= p by {
      MulAtLeast(p, m);
    }
    assert x * p == (m * p) * q + r * p by {
      assert x == m * q + r;
      Regroup(m, q, r, p);
    }
    assert r * p < m * p by {
      MulDistributes(p, m, r);
      MulAtLeast(p, m - r);
    }
    ModUnique(x * p, m * p, q, r * p);
  }

  lemma {:induction false} Regroup(m: int, q: int, r: int, p: int)
    ensures (m * q + r) * p == (m * p) * q + r * p
  {
  }
}
