/**
 _mm_malloc and _mm_free (libsimd/src/mm_alloc.c): an aligned block inside a larger one from
 malloc, with the address to free stored in front of it.
 */
module AlignedMalloc {
  import opened Words
  import opened Memory

  /////////////////////////////////////////////////////////////////////////////
  // Powers of two and masks
  /////////////////////////////////////////////////////////////////////////////

  predicate IsPowerOfTwo(a: nat) {
    a > 0 && (a == 1 || (a % 2 == 0 && IsPowerOfTwo(a / 2)))
  }

  lemma {:induction false} AndSelf(a: nat)
    ensures Bits(AndGate, a, a) == a
  {
    if a > 0 {
      AndSelf(a / 2);
    }
  }

  /** The test __align & (__align - 1): it is zero for the powers of two alone. */
  lemma {:induction false} PowerOfTwoTest(a: nat)
    requires a > 0
    ensures Bits(AndGate, a, a - 1) == 0 <==> IsPowerOfTwo(a)
    decreases a
  {
    var h := a / 2;
    if a % 2 == 1 {
      BitsStep(AndGate, a, a - 1, h, 1, h, 0);
      AndSelf(h);
    } else {
      BitsStep(AndGate, a, a - 1, h, 0, h - 1, 1);
      PowerOfTwoTest(h);
    }
  }

  lemma {:induction false} Exponent(a: nat) returns (k: nat)
    requires IsPowerOfTwo(a)
    ensures a == Pow2(k)
    decreases a
  {
    if a == 1 {
      k := 0;
    } else {
      k := Exponent(a / 2);
      k := k + 1;
    }
  }

  lemma {:induction false} AndAll(x: nat, n: nat)
    requires x < Pow2(n)
    ensures Bits(AndGate, x, Pow2(n) - 1) == x
    decreases n
  {
    if n > 0 {
      AndAll(x / 2, n - 1);
      BitsStep(AndGate, x, Pow2(n) - 1, x / 2, x % 2, Pow2(n - 1) - 1, 1);
    }
  }

  /** Clearing the low k of n digits rounds down to a multiple of 2^k. */
  lemma {:induction false} AndMask(x: nat, n: nat, k: nat)
    requires x < Pow2(n) && k <= n
    ensures Pow2(k) <= Pow2(n) && Bits(AndGate, x, Pow2(n) - Pow2(k)) == x - x % Pow2(k)
    decreases k
  {
    if k == 0 {
      AndAll(x, n);
    } else {
      AndMask(x / 2, n - 1, k - 1);
      BitsStep(AndGate, x, Pow2(n) - Pow2(k), x / 2, x % 2, Pow2(n - 1) - Pow2(k - 1), 0);
      HalfRemainder(x, Pow2(k - 1));
    }
  }

  lemma {:induction false} HalfRemainder(x: nat, m: nat)
    requires m > 0
    ensures x - x % (2 * m) == 2 * (x / 2 - (x / 2) % m)
  {
    var h, q := x / 2, x / 2 / m;
    ModUnique(x, 2 * m, q, 2 * (h % m) + x % 2);
  }

  /** p & ~(align - 1). */
  method RoundDown(p: u64, align: u64) returns (r: u64)
    requires IsPowerOfTwo(align)
    ensures r == p - p % align
  {
    r := Bits64(AndGate, p, Not64(align - 1));
    ghost var k := Exponent(align);
    Pow2Values();
    if k > 64 {
      Pow2Monotone(64, k);
    }
    AndMask(p, 64, k);
  }

  /** Whether align & (align - 1) is zero, in 64 bits. */
  method TestAlignment(align: u64) returns (accepted: bool)
    ensures accepted <==> align == 0 || IsPowerOfTwo(align)
  {
    var less: u64 := if align == 0 then TWO64 - 1 else align - 1;
    accepted := Bits64(AndGate, align, less) == 0;
    if align == 0 {
      AndZeroLeft(less);
    } else {
      PowerOfTwoTest(align);
    }
  }

  lemma {:induction false} AndZeroLeft(b: nat)
    ensures Bits(AndGate, 0, b) == 0
  {
    if b > 0 {
      AndZeroLeft(b / 2);
    }
  }

  /////////////////////////////////////////////////////////////////////////////
  // The heap
  /////////////////////////////////////////////////////////////////////////////

  /** The alignment that _mm_malloc uses: at least two pointers. */
  function Effective(align: u64): (a: u64)
    ensures a > 0
  {
    if align < 16 then 16 else align
  }

  predicate Accepted(align: u64) {
    align == 0 || IsPowerOfTwo(align)
  }

  lemma {:induction false} EffectiveAlignment(align: u64)
    requires Accepted(align)
    ensures IsPowerOfTwo(Effective(align)) && Effective(align) % 16 == 0
  {
    if align >= 16 {
      var k := Exponent(align);
      SixteenDivides(k);
    }
    assert IsPowerOfTwo(16) by {
      assert IsPowerOfTwo(4);
    }
  }

  lemma {:induction false} SixteenDivides(k: nat)
    requires Pow2(k) >= 16
    ensures Pow2(k) % 16 == 0
  {
    if k <= 3 {
      Pow2Monotone(k, 3);
    } else {
      var rest := Pow2(k - 4);
      assert Pow2(k - 2) == 4 * rest;
      assert Pow2(k) == 16 * rest;
    }
  }

  /**
   For every 16-aligned block the multiple of the alignment behind it leaves room for the saved
   pointer in front of it and for the user's bytes behind.
   */
  lemma {:induction false} MultipleAbove(p: nat, a: nat, q: int)
    requires a > 0 && a % 16 == 0 && p % 16 == 0 && q == p + a - (p + a) % a
    ensures q % a == 0 && p + 16 <= q <= p + a
  {
    var n := (p + a) / a;
    assert q == a * n;
    ModUnique(q, a, n, 0);
    SixteenTimes(a / 16, n);
    assert q % 16 == 0;
  }

  /** The multiple of a at or below x. */
  function MultipleBelow(x: nat, a: nat): (q: nat)
    requires a > 0
    ensures q <= x
  {
    if x < a then 0 else MultipleBelow(x - a, a) + a
  }

  lemma {:induction false} MultipleBelowValue(x: nat, a: nat)
    requires a > 0
    ensures MultipleBelow(x, a) == x - x % a
    decreases x
  {
    if x < a {
      ModUnique(x, a, 0, x);
    } else {
      MultipleBelowValue(x - a, a);
      OneMore(x, a);
    }
  }

  lemma {:induction false} OneMore(x: nat, a: nat)
    requires 0 < a <= x
    ensures (x - a) % a == x % a
  {
    var n, r := (x - a) / a, (x - a) % a;
    assert x == a * (n + 1) + r;
    ModUnique(x, a, n + 1, r);
  }

  predicate IsMultiple(q: nat, a: nat)
    requires a > 0
  {
    MultipleBelow(q, a) == q
  }

  lemma {:induction false} MultipleMeans(q: nat, a: nat)
    requires a > 0
    ensures IsMultiple(q, a) <==> q % a == 0
  {
    MultipleBelowValue(q, a);
  }

  /** (p + align) & ~(align - 1) in 64 bits. */
  function Aligned(p: u64, a: u64): u64
    requires a > 0
  {
    MultipleBelow(Wrap(p + a), a)
  }

  /** The computation of _mm_malloc, for the alignment that it uses and a block with room for size bytes. */
  method AlignAbove(p: u64, align: u64, ghost size: u64) returns (q: u64)
    requires Accepted(align) && p % 16 == 0 && size > 0
    requires size + Effective(align) < TWO64 ==> p + (size + Effective(align)) <= TWO64
    ensures q == Aligned(p, Effective(align))
    ensures size + Effective(align) < TWO64 ==> IsMultiple(q, Effective(align)) && p + 16 <= q <= p + Effective(align)
  {
    EffectiveAlignment(align);
    var a: u64 := Effective(align);
    var sum := Wrap(p + a);
    q := RoundDown(sum, a);
    MultipleBelowValue(sum, a);
    if size + a < TWO64 {
      assert sum == p + a;
      MultipleAbove(p, a, q);
      MultipleMeans(q, a);
    }
  }

  lemma {:induction false} SixteenTimes(b: nat, n: nat)
    ensures (16 * b) * n == 16 * (b * n)
  {
  }

  function ByteFor(x: u64, at: int, a: int): byte {
    if at <= a < at + 8 then LeBytes(x, 8)[a - at] else 0
  }

  function Store64(m: Mem, at: int, x: u64): Mem {
    m + (map a | at <= a < at + 8 :: ByteFor(x, at, a))
  }

  lemma {:induction false} StoredIsRead(m: Mem, at: int, x: u64)
    ensures Read64(Store64(m, at, x), at) == Ok(x)
  {
    var m' := Store64(m, at, x);
    forall k: nat | k < 8
      ensures ByteAt(m', at, LeBytes(x, 8), k)
    {
      assert m'[at + k] == ByteFor(x, at, at + k);
    }
    ReadStored64(m', at, x);
  }

  /** Nothing differs outside the n bytes at `at`. */
  ghost predicate AgreeOutside(m: Mem, m': Mem, at: int, n: nat) {
    forall a {:trigger Read8(m', a)} | !(at <= a < at + n) :: Read8(m, a) == Read8(m', a)
  }

  lemma {:induction false} ReadLeAgrees(m: Mem, m': Mem, p: int, k: nat, at: int, n: nat)
    requires AgreeOutside(m, m', at, n) && (p + k <= at || at + n <= p)
    ensures ReadLe(m', p, k) == ReadLe(m, p, k)
    decreases k
  {
    if k > 0 {
      assert Read8(m', p) == Read8(m, p);
      ReadLeAgrees(m, m', p + 1, k - 1, at, n);
    }
  }

  lemma {:induction false} AgreeFurther(m: Mem, m': Mem, at: int, n: nat, from: int, k: nat)
    requires AgreeOutside(m, m', at, n) && from <= at && at + n <= from + k
    ensures AgreeOutside(m, m', from, k)
  {
  }

  /** Whatever the user stores into his bytes, the saved pointer stays. */
  lemma {:induction false} HeaderSurvives(m: Mem, m': Mem, q: int, size: nat, p: u64)
    requires Read64(m, q - 8) == Ok(p) && AgreeOutside(m, m', q, size)
    ensures Read64(m', q - 8) == Ok(p)
  {
    ReadLeAgrees(m, m', q - 8, 8, q, size);
  }

  /** The address of the word in front of q. */
  function Before(q: u64): u64 {
    if q >= 8 then q - 8 else q + TWO64 - 8
  }

  /** A block from malloc at p with room for its saved pointer and size bytes at q. */
  predicate Room(blocks: map<int, nat>, q: int, size: nat, p: int) {
    p in blocks && p + 8 <= q && q + size <= p + blocks[p]
  }

  /** No block reaches into the n bytes at p. */
  ghost predicate Apart(blocks: map<int, nat>, p: int, n: nat) {
    forall b <- blocks :: b + blocks[b] <= p || p + n <= b
  }

  /** The saved pointer of an earlier block stays when another block is written. */
  lemma {:induction false} HeaderApart(m: Mem, m': Mem, blocks: map<int, nat>, q: int, size: nat, saved: int,
                                       p: int, n: nat)
    requires Room(blocks, q, size, saved) && Apart(blocks, p, n) && AgreeOutside(m, m', p, n)
    ensures Read64(m', q - 8) == Read64(m, q - 8)
  {
    ReadLeAgrees(m, m', q - 8, 8, p, n);
  }

  /** The block has room exactly if its size has not wrapped. */
  lemma {:induction false} RoomUnlessWrapped(blocks: map<int, nat>, p: u64, size: u64, a: u64, q: u64)
    requires size > 0 && p in blocks && blocks[p] == Wrap(size + a)
    requires size + a < TWO64 ==> p + 16 <= q <= p + a
    ensures Room(blocks, q, size, p) <==> size + a < TWO64
  {
    if size + a >= TWO64 {
      assert Wrap(size + a) == size + a - TWO64;
    }
  }

  /** The addresses of other blocks stay good when the n bytes at p are written. */
  lemma {:induction false} EarlierKept(m: Mem, m': Mem, blocks: map<int, nat>, p: int, n: nat)
    requires Apart(blocks, p, n) && AgreeOutside(m, m', p, n)
    ensures forall q: int, size: nat, saved: int {:trigger Room(blocks, q, size, saved)} |
              Room(blocks, q, size, saved) :: Read64(m', q - 8) == Read64(m, q - 8)
  {
    forall q: int, size: nat, saved: int {:trigger Room(blocks, q, size, saved)} | Room(blocks, q, size, saved)
      ensures Read64(m', q - 8) == Read64(m, q - 8)
    {
      HeaderApart(m, m', blocks, q, size, saved, p, n);
    }
  }

  /** The size bytes at q hold what the user has put there. */
  function Filled(m: Mem, q: int, size: nat, content: int -> byte): Mem {
    m + (map a | q <= a < q + size :: content(a))
  }

  /**
   The memory, the blocks that malloc has handed out with their addresses and sizes, and how often
   it has refused.
   */
  class Heap {
    var bytes: Mem
    var blocks: map<int, nat>
    ghost var refused: nat

    /** malloc: null, or a 16-aligned block that overlaps no other. */
    method Malloc(size: nat) returns (p: u64)
      modifies this`blocks, this`refused
      ensures refused == old(refused) + if p == 0 then 1 else 0
      ensures p == 0 ==> blocks == old(blocks)
      ensures p != 0 ==>
                && p % 16 == 0 && p + size <= TWO64 && p !in old(blocks) && blocks == old(blocks)[p := size]
                && Apart(old(blocks), p, size)
    {
      var candidate: u64 := *;
      if candidate % 16 == 0 && candidate + size <= TWO64 && candidate !in blocks
         && forall b <- blocks :: b + blocks[b] <= candidate || candidate + size <= b {
        p := candidate;
      } else {
        p := 0;
      }
      if p != 0 {
        blocks := blocks[p := size];
      } else {
        refused := refused + 1;
      }
    }

    /** q was handed out for `size` bytes inside the block p. */
    predicate Holds(q: u64, size: nat, p: u64)
      reads this
    {
      Room(blocks, q, size, p) && Read64(bytes, q - 8) == Ok(p)
    }

    /**
     _mm_malloc, with the block p that it takes from malloc.  Null means a bad alignment, size zero
     or a refusal by malloc.  The block is large enough exactly if size + alignment is no more than
     64 bits wide; then the address is aligned and not null, and every earlier one stays good.
     */
    method MmMalloc(size: u64, align: u64) returns (q: u64, ghost p: u64)
      modifies this
      ensures p == 0 <==> size == 0 || !Accepted(align) || refused > old(refused)
      ensures refused > old(refused) ==> size > 0 && Accepted(align) && refused == old(refused) + 1
      ensures p == 0 ==> q == 0 && bytes == old(bytes) && blocks == old(blocks)
      ensures p != 0 ==>
                && q == Aligned(p, Effective(align)) && p !in old(blocks)
                && blocks == old(blocks)[p := Wrap(size + Effective(align))]
                && Read64(bytes, Before(q)) == Ok(p) && AgreeOutside(old(bytes), bytes, Before(q), 8)
                && (Holds(q, size, p) <==> size + Effective(align) < TWO64)
      ensures p != 0 && size + Effective(align) < TWO64 ==>
                && q != 0 && IsMultiple(q, Effective(align)) && Apart(old(blocks), p, size + Effective(align))
                && forall q': u64, n: nat, p': u64 | old(Holds(q', n, p')) :: Holds(q', n, p') && p' != p
    {
      p := 0;
      var accepted := TestAlignment(align);
      if !accepted || size == 0 {
        return 0, 0;
      }
      var a := Effective(align);
      var block := Malloc(Wrap(size + a));
      if block == 0 {
        return 0, 0;
      }
      p := block;
      q := AlignAbove(block, align, size);
      Save(Before(q), block);
      RoomUnlessWrapped(blocks, block, size, a, q);
      if size + a < TWO64 {
        AgreeFurther(old(bytes), bytes, q - 8, 8, p, size + a);
        EarlierKept(old(bytes), bytes, old(blocks), p, size + a);
      }
    }

    method Save(at: int, x: u64)
      modifies this`bytes
      ensures Read64(bytes, at) == Ok(x) && AgreeOutside(old(bytes), bytes, at, 8)
    {
      StoredIsRead(bytes, at, x);
      bytes := Store64(bytes, at, x);
    }

    /** _mm_free: the saved pointer goes to free, which knows only what malloc handed out. */
    method MmFree(q: u64) returns (r: Outcome<()>)
      modifies this`blocks
      ensures q == 0 ==> r == Ok(()) && blocks == old(blocks)
      ensures q != 0 ==>
                match Read64(bytes, Before(q))
                case Ok(p) =>
                  r == (if p in old(blocks) then Ok(()) else Fault) && blocks == old(blocks) - {p}
                case _ => !r.Ok? && blocks == old(blocks)
    {
      if q == 0 {
        return Ok(());
      }
      var saved :- Read64(bytes, Before(q));
      if saved !in blocks {
        return Fault;
      }
      blocks := blocks - {saved};
      return Ok(());
    }

    /**
     A block is allocated, its bytes are filled with anything, and it is freed: malloc's blocks are
     what they were, and every earlier address is as good as before.
     */
    method AllocateFillFree(size: u64, align: u64, content: int -> byte) returns (r: Outcome<()>, ghost q: u64)
      requires size + Effective(align) < TWO64
      modifies this
      ensures r == Ok(()) && blocks == old(blocks)
      ensures q != 0 ==> forall a | q <= a < q + size :: Read8(bytes, a) == Ok(content(a))
      ensures q == 0 <==> size == 0 || !Accepted(align) || refused > old(refused)
      ensures forall q': u64, n: nat, p': u64 | old(Holds(q', n, p')) :: Holds(q', n, p')
    {
      var user;
      ghost var p;
      user, p := MmMalloc(size, align);
      q := user;
      ghost var before := bytes;
      if user != 0 {
        bytes := Filled(bytes, user, size, content);
        HeaderSurvives(before, bytes, user, size, p);
        AgreeFurther(before, bytes, user, size, p, size + Effective(align));
        EarlierKept(before, bytes, old(blocks), p, size + Effective(align));
      }
      r := MmFree(user);
    }
  }
}
