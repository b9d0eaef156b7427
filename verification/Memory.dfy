/**
 The address space the unwinder reads: a finite, immutable map from addresses to bytes.
 Reading an unmapped address is a Fault.  Words are little-endian.
 */
module Memory {
  import opened Words

  type Mem = map<int, byte>

  function Read8(m: Mem, p: int): Outcome<byte> {
    if p in m then Ok(m[p]) else Fault
  }

  /** The unsigned little-endian number in the n bytes at p. */
  function ReadLe(m: Mem, p: int, n: nat): Outcome<nat>
    decreases n, p
  {
    if n == 0 then Ok(0)
    else
      var low :- Read8(m, p);
      var high :- ReadLe(m, p + 1, n - 1);
      Ok(low + 0x100 * high)
  }

  lemma {:induction false} ReadLeBound(m: Mem, p: int, n: nat)
    ensures ReadLe(m, p, n).Ok? ==> ReadLe(m, p, n).value < Pow2(8 * n)
    ensures ReadLe(m, p, n).Ok? || ReadLe(m, p, n).Fault?
    decreases n
  {
    if n > 0 {
      ReadLeBound(m, p + 1, n - 1);
      Pow2Times256(8 * (n - 1));
      assert 8 * (n - 1) + 8 == 8 * n;
    }
  }

  lemma {:induction false} Pow2Times256(k: nat)
    ensures Pow2(k + 8) == 0x100 * Pow2(k)
  {
    Pow2Values();
    Pow2Add(8, k);
  }

  function Read16(m: Mem, p: int): (r: Outcome<u64>)
    ensures r.Ok? ==> r.value < 0x1_0000
    ensures r.Ok? || r.Fault?
  {
    ReadLeBound(m, p, 2);
    Pow2Values();
    ReadLe(m, p, 2)
  }

  function Read32(m: Mem, p: int): (r: Outcome<u64>)
    ensures r.Ok? ==> r.value < TWO32
    ensures r.Ok? || r.Fault?
  {
    ReadLeBound(m, p, 4);
    Pow2Values();
    ReadLe(m, p, 4)
  }

  function Read64(m: Mem, p: int): (r: Outcome<u64>)
    ensures r.Ok? || r.Fault?
  {
    ReadLeBound(m, p, 8);
    Pow2Values();
    ReadLe(m, p, 8)
  }

  /** Reads an unsigned word of 1, 2, 4 or 8 bytes. */
  function ReadWord(m: Mem, p: int, width: nat): (r: Outcome<u64>)
    requires width in {1, 2, 4, 8}
    ensures r.Ok? ==> r.value < WordLimit(width)
    ensures r.Ok? || r.Fault?
  {
    if width == 1 then var b :- Read8(m, p); Ok(b as int)
    else if width == 2 then Read16(m, p)
    else if width == 4 then Read32(m, p)
    else Read64(m, p)
  }

  function WordLimit(width: nat): nat
    requires width in {1, 2, 4, 8}
  {
    if width == 1 then 0x100 else if width == 2 then 0x1_0000 else if width == 4 then TWO32 else TWO64
  }

  /** Conversion of a narrow signed word to 64 bits. */
  function SignExtend(x: u64, width: nat): u64
    requires width in {1, 2, 4, 8}
    requires x < WordLimit(width)
  {
    if x < WordLimit(width) / 2 then x else Wrap(x - WordLimit(width))
  }

  /** The n low bytes of x, least significant first. */
  function LeBytes(x: nat, n: nat): (bs: seq<byte>)
    ensures |bs| == n
    decreases n, x
  {
    if n == 0 then [] else [x % 0x100] + LeBytes(x / 0x100, n - 1)
  }

  /** Byte k of bs is stored k behind p. */
  predicate ByteAt(m: Mem, p: int, bs: seq<byte>, k: nat)
    requires k < |bs|
  {
    Read8(m, p + k) == Ok(bs[k])
  }

  /**
   The bytes bs are stored at p.  The trigger leaves it to the lemmas below to say which byte
   is meant.
   */
  ghost predicate Holds(m: Mem, p: int, bs: seq<byte>) {
    forall k: nat {:trigger ByteAt(m, p, bs, k)} | k < |bs| :: ByteAt(m, p, bs, k)
  }

  lemma {:induction false} HoldsAt(m: Mem, p: int, bs: seq<byte>, k: nat)
    requires Holds(m, p, bs) && k < |bs|
    ensures Read8(m, p + k) == Ok(bs[k])
  {
    assert ByteAt(m, p, bs, k);
  }

  lemma {:induction false} HoldsConcat(m: Mem, p: int, a: seq<byte>, b: seq<byte>)
    ensures Holds(m, p, a + b) <==> Holds(m, p, a) && Holds(m, p + |a|, b)
  {
    if Holds(m, p, a + b) {
      forall k: nat | k < |a|
        ensures ByteAt(m, p, a, k)
      {
        HoldsAt(m, p, a + b, k);
      }
      forall k: nat {:trigger ByteAt(m, p + |a|, b, k)} | k < |b|
        ensures ByteAt(m, p + |a|, b, k)
      {
        HoldsAt(m, p, a + b, |a| + k);
      }
    }
    if Holds(m, p, a) && Holds(m, p + |a|, b) {
      forall k: nat | k < |a + b|
        ensures ByteAt(m, p, a + b, k)
      {
        if k < |a| {
          HoldsAt(m, p, a, k);
        } else {
          HoldsAt(m, p + |a|, b, k - |a|);
        }
      }
    }
  }

  lemma {:induction false} HeadAndRest(m: Mem, p: int, b: byte, rest: seq<byte>)
    requires Holds(m, p, [b] + rest)
    ensures Read8(m, p) == Ok(b) && Holds(m, p + 1, rest)
  {
    HoldsConcat(m, p, [b], rest);
    HoldsAt(m, p, [b], 0);
  }

  lemma {:induction false} ReadLeBytes(m: Mem, p: int, x: nat, n: nat)
    requires x < Pow2(8 * n) && Holds(m, p, LeBytes(x, n))
    ensures ReadLe(m, p, n) == Ok(x)
    decreases n
  {
    if n > 0 {
      HeadAndRest(m, p, x % 0x100, LeBytes(x / 0x100, n - 1));
      Pow2Times256(8 * (n - 1));
      assert 8 * (n - 1) + 8 == 8 * n;
      ReadLeBytes(m, p + 1, x / 0x100, n - 1);
    }
  }

  lemma {:induction false} ReadStored32(m: Mem, p: int, x: nat)
    requires x < TWO32 && Holds(m, p, LeBytes(x, 4))
    ensures Read32(m, p) == Ok(x)
  {
    Pow2Values();
    ReadLeBytes(m, p, x, 4);
  }

  lemma {:induction false} ReadStored64(m: Mem, p: int, x: nat)
    requires x < TWO64 && Holds(m, p, LeBytes(x, 8))
    ensures Read64(m, p) == Ok(x)
  {
    Pow2Values();
    ReadLeBytes(m, p, x, 8);
  }

  lemma {:induction false} ReadStoredWord(m: Mem, p: int, x: nat, width: nat)
    requires width in {1, 2, 4, 8} && x < WordLimit(width) && Holds(m, p, LeBytes(x, width))
    ensures ReadWord(m, p, width) == Ok(x)
  {
    Pow2Values();
    ReadLeBytes(m, p, x, width);
    if width == 1 {
      assert ReadLe(m, p + 1, 0) == Ok(0);
    }
  }
}
