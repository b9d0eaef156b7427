/**
 LEB128 numbers (section 7.6 of DWARF 4): the decoding loops of dwarf4.cpp and of the
 personality routine, proved against base-128 arithmetic and against an encoder.
 */
module Leb128 {
  import opened Words
  import opened Memory

  /** A shift count of 70 comes after ten bytes; an eleventh would shift by more than 63. */
  const MAX_BYTES: nat := 10

  /**
   The length of the number at p: the bytes through the first with a clear top bit.  A number
   longer than `limit` bytes is a Fault.
   */
  function NumberLength(m: Mem, p: int, limit: nat): (r: Outcome<nat>)
    ensures r.Ok? ==> 1 <= r.value <= limit
    ensures r.Ok? || r.Fault?
    decreases limit, p  // p keeps the verifier from unfolding a call with a literal limit ten times
  {
    if limit == 0 then Fault
    else
      var b :- Read8(m, p);
      if b < 128 then Ok(1)
      else
        var rest :- NumberLength(m, p + 1, limit - 1);
        Ok(rest + 1)
  }

  function Digit(m: Mem, p: int): (d: nat)
    ensures d < 128
  {
    if p in m then m[p] % 128 else 0
  }

  /** The arithmetic value of n base-128 digits, least significant first. */
  function Digits(m: Mem, p: int, n: nat): nat
    decreases n
  {
    if n == 0 then 0 else Digit(m, p) + 128 * Digits(m, p + 1, n - 1)
  }

  /** As Digits, with bit 6 of the last digit weighing minus its place instead of plus. */
  function SignedDigits(m: Mem, p: int, n: nat): int
    decreases n
  {
    if n == 0 then 0
    else if n == 1 then (if Digit(m, p) < 64 then Digit(m, p) else Digit(m, p) - 128)
    else Digit(m, p) + 128 * SignedDigits(m, p + 1, n - 1)
  }

  /** decode_uleb128 as a value: the number modulo 2^64 and the address behind it. */
  function Uleb(m: Mem, p: int): (r: Outcome<(u64, int)>)
    ensures r.Ok? ==> p < r.value.1 <= p + MAX_BYTES
    ensures r.Ok? || r.Fault?
  {
    var n :- NumberLength(m, p, MAX_BYTES);
    Ok((Wrap(Digits(m, p, n)), p + n))
  }

  /** decode_sleb128 as a value: the two's complement word of the number. */
  function Sleb(m: Mem, p: int): (r: Outcome<(u64, int)>)
    ensures r.Ok? ==> p < r.value.1 <= p + MAX_BYTES
    ensures r.Ok? || r.Fault?
  {
    var n :- NumberLength(m, p, MAX_BYTES);
    Ok((Wrap(SignedDigits(m, p, n)), p + n))
  }

  /////////////////////////////////////////////////////////////////////////////
  // Digits and their places
  /////////////////////////////////////////////////////////////////////////////

  lemma {:induction false} DigitsAppend(m: Mem, p: int, n: nat)
    ensures Digits(m, p, n + 1) == Digits(m, p, n) + Digit(m, p + n) * Pow2(7 * n)
    decreases n
  {
    if n > 0 {
      DigitsAppend(m, p + 1, n - 1);
      Pow2Times128(7 * (n - 1));
      PlaceUp(Digit(m, p + n), n);
    }
  }

  lemma {:induction false} PlaceUp(d: nat, n: nat)
    requires n > 0
    ensures 128 * (d * Pow2(7 * (n - 1))) == d * Pow2(7 * n)
  {
    Pow2Times128(7 * (n - 1));
    assert 7 * (n - 1) + 7 == 7 * n;
    Regroup128(d, Pow2(7 * (n - 1)));
  }

  lemma {:induction false} Regroup128(x: int, y: int)
    ensures 128 * (x * y) == x * (128 * y)
  {
  }

  lemma {:induction false} DigitsBound(m: Mem, p: int, n: nat)
    ensures Digits(m, p, n) < Pow2(7 * n)
    decreases n
  {
    if n > 0 {
      DigitsBound(m, p + 1, n - 1);
      Pow2Times128(7 * (n - 1));
      assert 7 * (n - 1) + 7 == 7 * n;
    }
  }

  /** The sign bit takes 2^(7n) off the unsigned value of an n-byte number. */
  lemma {:induction false} SignedFromUnsigned(m: Mem, p: int, n: nat)
    requires n >= 1
    ensures SignedDigits(m, p, n) ==
            Digits(m, p, n) - (if Digit(m, p + n - 1) < 64 then 0 else Pow2(7 * n))
    decreases n
  {
    if n == 1 {
      assert Pow2(7) == 128;
      assert Digits(m, p + 1, 0) == 0;
    } else {
      SignedFromUnsigned(m, p + 1, n - 1);
      Pow2Times128(7 * (n - 1));
      assert 7 * (n - 1) + 7 == 7 * n;
    }
  }

  /** Or-ing a digit, shifted to its place, into a word below that place adds it modulo 2^64. */
  lemma {:induction false} OrShifted(a: u64, digit: u64, s: nat)
    requires s < 64 && a < Pow2(s)
    ensures Bits64(OrGate, a, Shl(digit, s)) == Wrap(a + digit * Pow2(s))
  {
    var p, rest := Pow2(s), Pow2(64 - s);
    Pow2Split(s);
    ShlForm(digit, s);
    OrDisjoint(a, digit % rest, s);
    WrapAdd(a, digit, p, rest);
  }

  lemma {:induction false} WrapAdd(a: nat, digit: nat, p: nat, rest: nat)
    requires rest >= 1 && p >= 1 && rest * p == TWO64 && a < p
    ensures Wrap(a + digit * p) == a + (digit % rest) * p
  {
    var low := digit % rest;
    ScaledMod(digit, rest, p);
    FitsBelow(low, rest, p);
    ModShift(a, digit * p, TWO64);
  }

  lemma {:induction false} FitsBelow(x: nat, m: nat, p: nat)
    requires x < m
    ensures x * p <= m * p - p
  {
    MulDistributes(p, m, x);
    MulAtLeast(p, m - x);
  }

  lemma {:induction false} ModShift(a: nat, y: int, m: nat)
    requires m >= 1 && a + y % m < m
    ensures (a + y) % m == a + y % m
  {
    ModUnique(a + y, m, y / m, a + y % m);
  }

  /** A number of at most nine digits is below 2^63. */
  lemma {:induction false} NineDigits(m: Mem, p: int, n: nat)
    requires n < MAX_BYTES
    ensures Digits(m, p, n) < Pow2(7 * n) <= TWO63
    ensures Wrap(Digits(m, p, n)) == Digits(m, p, n)
  {
    DigitsBound(m, p, n);
    Pow2Word(7 * n);
  }

  lemma {:induction false} OrNextDigit(m: Mem, addr: int, n: nat, result: u64)
    requires n < MAX_BYTES && result == Digits(m, addr, n)
    ensures Bits64(OrGate, result, Shl(Digit(m, addr + n), 7 * n)) == Wrap(Digits(m, addr, n + 1))
  {
    var digit, shift := Digit(m, addr + n), 7 * n;
    DigitsBound(m, addr, n);
    OrShifted(result, digit, shift);
    DigitsAppend(m, addr, n);
  }

  /** The high bits that sign extension sets, as the word -(1 << shift). */
  function HighMask(shift: nat): u64
    requires shift < 64
  {
    var bit: int := Shl(1, shift);
    Wrap(0 - bit)
  }

  lemma {:induction false} OrHighMask(a: u64, s: nat)
    requires s < 64 && a < Pow2(s)
    ensures Bits64(OrGate, a, HighMask(s)) == Wrap(a - Pow2(s))
  {
    var p, rest := Pow2(s), Pow2(64 - s);
    Pow2Split(s);
    OneLess(rest, p);
    HighMaskValue(s);
    OrDisjoint(a, rest - 1, s);
    WrapBorrow(a, p);
  }

  lemma {:induction false} OneLess(x: int, p: int)
    ensures (x - 1) * p == x * p - p
  {
  }

  lemma {:induction false} WrapBorrow(a: nat, p: nat)
    requires a < p <= TWO64
    ensures Wrap(a - p) == a + (TWO64 - p)
  {
    ModUnique(a - p, TWO64, -1, a + (TWO64 - p));
  }

  lemma {:induction false} HighMaskValue(shift: nat)
    requires shift < 64
    ensures HighMask(shift) == TWO64 - Pow2(shift)
  {
    Pow2Word(shift);
    ShlValue(1, shift);
  }

  /** Or-ing in the sign bits turns the unsigned word into the two's complement word. */
  lemma {:induction false} SignSet(m: Mem, addr: int, n: nat, result: u64)
    requires 1 <= n < MAX_BYTES && result == Wrap(Digits(m, addr, n))
    requires Digit(m, addr + n - 1) >= 64
    ensures Bits64(OrGate, result, HighMask(7 * n)) == Wrap(SignedDigits(m, addr, n))
  {
    SignedFromUnsigned(m, addr, n);
    NineDigits(m, addr, n);
    OrHighMask(result, 7 * n);
  }

  /** With ten bytes the word is full, and without bit 6 there is no sign to extend. */
  lemma {:induction false} SignClear(m: Mem, addr: int, n: nat)
    requires n == MAX_BYTES || (1 <= n && Digit(m, addr + n - 1) < 64)
    ensures Wrap(Digits(m, addr, n)) == Wrap(SignedDigits(m, addr, n))
  {
    SignedFromUnsigned(m, addr, n);
    if n == MAX_BYTES {
      TenPlaces(n);
      WrapTenPlaces(Digits(m, addr, n));
    }
  }

  lemma {:induction false} TenPlaces(n: nat)
    requires n == MAX_BYTES
    ensures Pow2(7 * n) == 64 * TWO64
  {
    Pow2Add(64, 6);
    Pow2Values();
  }

  lemma {:induction false} WrapTenPlaces(x: nat)
    ensures Wrap(x - 64 * TWO64) == Wrap(x)
  {
    ModUnique(x - 64 * TWO64, TWO64, x / TWO64 - 64, x % TWO64);
  }

  /////////////////////////////////////////////////////////////////////////////
  // The decoding loops
  /////////////////////////////////////////////////////////////////////////////

  /** The first n bytes at addr all have the top bit set. */
  ghost predicate Continuing(m: Mem, addr: int, n: nat) {
    n == 0 || (Continuing(m, addr, n - 1) && Read8(m, addr + n - 1).Ok? && Read8(m, addr + n - 1).value >= 128)
  }

  lemma {:induction false} LengthFrom(m: Mem, addr: int, n: nat, limit: nat)
    requires n <= limit && Continuing(m, addr, n)
    ensures NumberLength(m, addr, limit) ==
            match NumberLength(m, addr + n, limit - n)
            case Ok(rest) => Ok(n + rest)
            case _ => Fault
    decreases n
  {
    if n > 0 {
      LengthFrom(m, addr, n - 1, limit);
    }
  }

  lemma {:induction false} NumberEnds(m: Mem, addr: int, n: nat)
    requires n < MAX_BYTES && Continuing(m, addr, n)
    requires Read8(m, addr + n).Ok? && Read8(m, addr + n).value < 128
    ensures Uleb(m, addr) == Ok((Wrap(Digits(m, addr, n + 1)), addr + n + 1))
    ensures Sleb(m, addr) == Ok((Wrap(SignedDigits(m, addr, n + 1)), addr + n + 1))
  {
    LengthFrom(m, addr, n, MAX_BYTES);
  }

  lemma {:induction false} NumberMissing(m: Mem, addr: int, n: nat)
    requires n <= MAX_BYTES && Continuing(m, addr, n)
    requires addr + n !in m || n == MAX_BYTES
    ensures Uleb(m, addr) == Fault && Sleb(m, addr) == Fault
  {
    LengthFrom(m, addr, n, MAX_BYTES);
  }

  method DecodeUleb128(m: Mem, addr: int) returns (r: Outcome<(u64, int)>)
    ensures r == Uleb(m, addr)
  {
    var p, shift, result: u64 := addr, 0, 0;
    var b: byte := 128;
    ghost var n := 0;
    while b >= 128
      invariant n <= MAX_BYTES
      invariant if b >= 128 then Continuing(m, addr, n)
                else n >= 1 && Continuing(m, addr, n - 1) && Read8(m, addr + n - 1) == Ok(b)
      invariant p == addr + n && shift == 7 * n
      invariant result == Wrap(Digits(m, addr, n))
      invariant n < MAX_BYTES ==> result == Digits(m, addr, n)
      decreases MAX_BYTES - n
    {
      if p !in m || shift >= 64 {
        NumberMissing(m, addr, n);
        return Fault;
      }
      b := m[p];
      result := OrDigit(m, addr, n, result, b, shift);
      p, shift, n := p + 1, shift + 7, n + 1;
    }
    NumberEnds(m, addr, n - 1);
    return Ok((result, p));
  }

  /** The statement result |= (byte & 0x7f) << shift, for the byte after n others. */
  method OrDigit(m: Mem, ghost addr: int, ghost n: nat, result: u64, b: byte, shift: nat)
    returns (next: u64)
    requires n < MAX_BYTES && shift == 7 * n && shift < 64
    requires result == Digits(m, addr, n) && Read8(m, addr + n) == Ok(b)
    ensures next == Wrap(Digits(m, addr, n + 1))
    ensures n + 1 < MAX_BYTES ==> next == Digits(m, addr, n + 1)
  {
    OrNextDigit(m, addr, n, result);
    if n + 1 < MAX_BYTES {
      NineDigits(m, addr, n + 1);
    }
    next := Bits64(OrGate, result, Shl(b % 128, shift));
  }

  method DecodeSleb128(m: Mem, addr: int) returns (r: Outcome<(u64, int)>)
    ensures r == Sleb(m, addr)
  {
    var p, shift, result: u64 := addr, 0, 0;
    var b: byte := 128;
    ghost var n := 0;
    while b >= 128
      invariant n <= MAX_BYTES
      invariant if b >= 128 then Continuing(m, addr, n)
                else n >= 1 && Continuing(m, addr, n - 1) && Read8(m, addr + n - 1) == Ok(b)
      invariant p == addr + n && shift == 7 * n
      invariant result == Wrap(Digits(m, addr, n))
      invariant n < MAX_BYTES ==> result == Digits(m, addr, n)
      decreases MAX_BYTES - n
    {
      if p !in m || shift >= 64 {
        NumberMissing(m, addr, n);
        return Fault;
      }
      b := m[p];
      result := OrDigit(m, addr, n, result, b, shift);
      p, shift, n := p + 1, shift + 7, n + 1;
    }
    result := ExtendSign(m, addr, n, result, b, shift);
    NumberEnds(m, addr, n - 1);
    return Ok((result, p));
  }

  /** The statement if (shift < 64 && (byte & 0x40)) result |= -(1 << shift). */
  method ExtendSign(m: Mem, ghost addr: int, ghost n: nat, result: u64, b: byte, shift: nat)
    returns (word: u64)
    requires 1 <= n <= MAX_BYTES && shift == 7 * n
    requires result == Wrap(Digits(m, addr, n))
    requires b < 128 && Read8(m, addr + n - 1) == Ok(b)
    ensures word == Wrap(SignedDigits(m, addr, n))
  {
    if shift < 64 && b >= 64 {
      SignSet(m, addr, n, result);
      word := Bits64(OrGate, result, HighMask(shift));
    } else {
      SignClear(m, addr, n);
      word := result;
    }
  }

  /** Conversion of a 64-bit word to a 32-bit int. */
  function Narrow(x: u64): int {
    var low := x % 0x1_0000_0000;
    if low < 0x8000_0000 then low else low - 0x1_0000_0000
  }

  /** readSLEB128 of the personality routine as a value. */
  function NarrowSleb(m: Mem, p: int): Outcome<int> {
    var (word, _) :- Sleb(m, p);
    Ok(Narrow(word))
  }

  method ReadSleb128(m: Mem, data: int) returns (r: Outcome<int>)
    ensures r == NarrowSleb(m, data)
  {
    var p, shift, result: u64 := data, 0, 0;
    var b: byte := 128;
    ghost var n := 0;
    while b >= 128
      invariant n <= MAX_BYTES
      invariant if b >= 128 then Continuing(m, data, n)
                else n >= 1 && Continuing(m, data, n - 1) && Read8(m, data + n - 1) == Ok(b)
      invariant p == data + n && shift == 7 * n
      invariant result == Wrap(Digits(m, data, n))
      invariant n < MAX_BYTES ==> result == Digits(m, data, n)
      decreases MAX_BYTES - n
    {
      if p !in m || shift >= 64 {
        NumberMissing(m, data, n);
        return Fault;
      }
      b := m[p];
      result := OrDigit(m, data, n, result, b, shift);
      p, shift, n := p + 1, shift + 7, n + 1;
    }
    result := ExtendSign(m, data, n, result, b, shift);
    NumberEnds(m, data, n - 1);
    return Ok(Narrow(result));
  }

  /////////////////////////////////////////////////////////////////////////////
  // Encoders and round trips
  /////////////////////////////////////////////////////////////////////////////

  function EncodeUleb(v: nat): (bs: seq<byte>)
    ensures |bs| >= 1
  {
    if v < 128 then [v] else [v % 128 + 128] + EncodeUleb(v / 128)
  }

  function EncodeSleb(v: int): (bs: seq<byte>)
    ensures |bs| >= 1
    decreases if v < 0 then -v else v
  {
    if -64 <= v < 64 then [v % 128] else [v % 128 + 128] + EncodeSleb(v / 128)
  }

  /** An encoding of v < 2^(7n) takes at most n bytes and reads back as v. */
  lemma {:induction false} UlebStored(m: Mem, p: int, v: nat, n: nat)
    requires n >= 1 && v < Pow2(7 * n) && Holds(m, p, EncodeUleb(v))
    ensures NumberLength(m, p, n) == Ok(|EncodeUleb(v)|)
    ensures Digits(m, p, |EncodeUleb(v)|) == v
    decreases n
  {
    if v < 128 {
      HoldsAt(m, p, EncodeUleb(v), 0);
      assert Digits(m, p + 1, 0) == 0;
    } else {
      var rest := EncodeUleb(v / 128);
      HeadAndRest(m, p, v % 128 + 128, rest);
      PlacesLeft(v, n);
      UlebStored(m, p + 1, v / 128, n - 1);
      assert |EncodeUleb(v)| == 1 + |rest|;
    }
  }

  lemma {:induction false} PlacesLeft(v: nat, n: nat)
    requires n >= 1 && 128 <= v < Pow2(7 * n)
    ensures n >= 2 && v / 128 < Pow2(7 * (n - 1))
  {
    assert Pow2(7) == 128;
    Pow2Times128(7 * (n - 1));
    assert 7 * (n - 1) + 7 == 7 * n;
  }

  lemma {:induction false} SlebStored(m: Mem, p: int, v: int, n: nat)
    requires n >= 1 && -v <= Pow2(7 * n - 1) && v < Pow2(7 * n - 1)
    requires Holds(m, p, EncodeSleb(v))
    ensures NumberLength(m, p, n) == Ok(|EncodeSleb(v)|)
    ensures SignedDigits(m, p, |EncodeSleb(v)|) == v
    decreases n
  {
    if -64 <= v < 64 {
      HoldsAt(m, p, EncodeSleb(v), 0);
    } else {
      var rest := EncodeSleb(v / 128);
      HeadAndRest(m, p, v % 128 + 128, rest);
      SignedPlacesLeft(v, n);
      SlebStored(m, p + 1, v / 128, n - 1);
      assert |EncodeSleb(v)| == 1 + |rest|;
      DigitInFront(m, p, v % 128, n - 1, |rest|, v / 128);
    }
  }

  /** A digit in front of a number. */
  lemma {:induction false} DigitInFront(m: Mem, p: int, digit: nat, n: nat, length: nat, v: int)
    requires digit < 128 && length >= 1 && Read8(m, p) == Ok(digit + 128)
    requires NumberLength(m, p + 1, n) == Ok(length) && SignedDigits(m, p + 1, length) == v
    ensures NumberLength(m, p, n + 1) == Ok(length + 1) && SignedDigits(m, p, length + 1) == digit + 128 * v
  {
  }

  lemma {:induction false} SignedPlacesLeft(v: int, n: nat)
    requires n >= 1 && -v <= Pow2(7 * n - 1) && v < Pow2(7 * n - 1)
    requires !(-64 <= v < 64)
    ensures n >= 2 && -(v / 128) <= Pow2(7 * (n - 1) - 1) && v / 128 < Pow2(7 * (n - 1) - 1)
  {
    assert Pow2(6) == 64;
    Pow2Times128(7 * n - 8);
    assert 7 * n - 8 + 7 == 7 * n - 1 && 7 * (n - 1) - 1 == 7 * n - 8;
  }

  lemma {:induction false} TenByteRange()
    ensures TWO64 <= Pow2(7 * MAX_BYTES) && TWO63 <= Pow2(7 * MAX_BYTES - 1)
  {
    Pow2Values();
    Pow2Monotone(63, 69);
    Pow2Monotone(64, 70);
  }

  /** Decoding what the encoder wrote gives the number back, for every 64-bit word. */
  lemma {:induction false} UlebRoundTrip(m: Mem, p: int, v: u64)
    requires Holds(m, p, EncodeUleb(v))
    ensures Uleb(m, p) == Ok((v, p + |EncodeUleb(v)|))
  {
    TenByteRange();
    UlebStored(m, p, v, MAX_BYTES);
  }

  lemma {:induction false} SlebRoundTrip(m: Mem, p: int, v: u64)
    requires Holds(m, p, EncodeSleb(Signed(v)))
    ensures Sleb(m, p) == Ok((v, p + |EncodeSleb(Signed(v))|))
  {
    TenByteRange();
    SlebStored(m, p, Signed(v), MAX_BYTES);
    WrapSigned(v);
  }
}
