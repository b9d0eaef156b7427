/**
 What the block device layer works on: a disk that moves whole blocks and may transfer fewer
 than it was asked for, and the bytes of memory that its callers hand it.
 */
module Disk {
  import opened Words

  /////////////////////////////////////////////////////////////////////////////
  // Copying
  /////////////////////////////////////////////////////////////////////////////

  /** s has n bytes from `from` on; no bytes are there anywhere. */
  predicate InRange(s: seq<byte>, from: nat, n: nat) {
    n == 0 || from + n <= |s|
  }

  function ByteOf(s: seq<byte>, i: nat): byte
    requires i < |s|
  {
    s[i]
  }

  /**
   memcpy: `after` is `before` with the n bytes from `to` on replaced by those of s from `from`
   on.  The trigger leaves it to the lemmas below to say which byte is meant.
   */
  ghost predicate Copied(before: seq<byte>, after: seq<byte>, to: nat, s: seq<byte>, from: nat, n: nat) {
    && InRange(before, to, n) && InRange(s, from, n) && |after| == |before|
    && forall i: nat {:trigger ByteOf(after, i)} | i < |after| ::
         ByteOf(after, i) == if to <= i < to + n then ByteOf(s, from + i - to) else ByteOf(before, i)
  }

  /** s with the n bytes from `to` on replaced by those of t from `from` on. */
  function Replaced(s: seq<byte>, to: nat, t: seq<byte>, from: nat, n: nat): seq<byte>
    requires InRange(s, to, n) && InRange(t, from, n)
  {
    if n == 0 then s else s[..to] + t[from..from + n] + s[to + n..]
  }

  lemma {:induction false} CopiedMeans(before: seq<byte>, after: seq<byte>, to: nat, s: seq<byte>, from: nat, n: nat)
    requires Copied(before, after, to, s, from, n)
    ensures InRange(before, to, n) && InRange(s, from, n)
    ensures after == Replaced(before, to, s, from, n)
  {
    var whole := Replaced(before, to, s, from, n);
    forall i: nat | i < |after|
      ensures after[i] == whole[i]
    {
      assert ByteOf(after, i) == after[i];
    }
    assert after == whole;
  }

  lemma {:induction false} CopiedNothing(s: seq<byte>, to: nat, t: seq<byte>, from: nat)
    ensures Copied(s, s, to, t, from, 0)
  {
  }

  lemma {:induction false} CopiedOn(a: seq<byte>, b: seq<byte>, c: seq<byte>, to: nat, s: seq<byte>, from: nat,
                                    n: nat, more: nat)
    requires Copied(a, b, to, s, from, n) && Copied(b, c, to + n, s, from + n, more)
    ensures Copied(a, c, to, s, from, n + more)
  {
    forall i: nat | i < |c|
      ensures ByteOf(c, i) == if to <= i < to + n + more then ByteOf(s, from + i - to) else ByteOf(a, i)
    {
      assert ByteOf(b, i) == if to <= i < to + n then ByteOf(s, from + i - to) else ByteOf(a, i);
    }
  }

  /** Copying on from a block-sized buffer t that was itself filled from s. */
  lemma {:induction false} CopiedThrough(u: seq<byte>, t: seq<byte>, s: seq<byte>, at: nat, size: nat,
                                         a: seq<byte>, b: seq<byte>, to: nat, from: nat, n: nat)
    requires |u| == size && Copied(u, t, 0, s, at, size) && 0 < n && from + n <= size
    requires Copied(a, b, to, t, from, n)
    ensures Copied(a, b, to, s, at + from, n)
  {
    forall i: nat | i < |b|
      ensures ByteOf(b, i) == if to <= i < to + n then ByteOf(s, at + from + i - to) else ByteOf(a, i)
    {
      if to <= i < to + n {
        assert ByteOf(t, from + i - to) == ByteOf(s, at + (from + i - to));
      }
    }
  }

  /** A block that was read and is written back as it was. */
  lemma {:induction false} CopiedBack(u: seq<byte>, t: seq<byte>, s: seq<byte>, s': seq<byte>, at: nat, size: nat)
    requires |u| == size > 0 && Copied(u, t, 0, s, at, size) && Copied(s, s', at, t, 0, size)
    ensures s' == s
  {
    CopiedThrough(u, t, s, at, size, s, s', at, 0, size);
    CopiedMeans(s, s', at, s, at, size);
    assert s[..at] + s[at..at + size] + s[at + size..] == s;
  }

  /** A block that was read and is written back with its first n bytes replaced. */
  lemma {:induction false} CopiedPatch(u: seq<byte>, t: seq<byte>, t': seq<byte>, s: seq<byte>, s': seq<byte>,
                                       at: nat, size: nat,
                                       d: seq<byte>, from: nat, n: nat)
    requires |u| == size && n <= size && Copied(u, t, 0, s, at, size)
    requires Copied(t, t', 0, d, from, n) && Copied(s, s', at, t', 0, size)
    ensures Copied(s, s', at, d, from, n)
  {
    forall i: nat | i < |s'|
      ensures ByteOf(s', i) == if at <= i < at + n then ByteOf(d, from + i - at) else ByteOf(s, i)
    {
      if at <= i < at + size {
        var k: nat := i - at;
        assert ByteOf(t', 0 + k) == if k < n then ByteOf(d, from + k) else ByteOf(t, k);
        if k >= n {
          assert ByteOf(t, 0 + k) == ByteOf(s, at + k);
        }
      }
    }
  }

  /** The bytes behind a copy are the old ones. */
  lemma {:induction false} CopiedBehind(a: seq<byte>, b: seq<byte>, to: nat, s: seq<byte>, from: nat, n: nat,
                                        c: seq<byte>, d: seq<byte>, at: nat, more: nat)
    requires Copied(a, b, to, s, from, n) && Copied(c, d, at, b, to + n, more)
    ensures Copied(c, d, at, a, to + n, more)
  {
    forall i: nat | i < |d|
      ensures ByteOf(d, i) == if at <= i < at + more then ByteOf(a, to + n + i - at) else ByteOf(c, i)
    {
      if at <= i < at + more {
        assert ByteOf(b, to + n + i - at) == ByteOf(a, to + n + i - at);
      }
    }
  }

  /** Nothing but the n bytes from `at` on may differ. */
  predicate SameOutside(s: seq<byte>, t: seq<byte>, at: nat, n: nat) {
    |s| == |t| && forall i | 0 <= i < |s| && !(at <= i < at + n) :: s[i] == t[i]
  }

  lemma {:induction false} CopiedInside(a: seq<byte>, b: seq<byte>, to: nat, s: seq<byte>, from: nat, n: nat,
                                        at: nat, len: nat)
    requires Copied(a, b, to, s, from, n) && (n == 0 || (at <= to && to + n <= at + len))
    ensures SameOutside(a, b, at, len)
  {
    forall i | 0 <= i < |a| && !(at <= i < at + len)
      ensures a[i] == b[i]
    {
      assert ByteOf(b, i) == ByteOf(a, i);
    }
  }

  /** memcpy into an array. */
  method Copy(memory: array<byte>, to: nat, source: seq<byte>, from: nat, n: nat)
    requires to + n <= memory.Length && from + n <= |source|
    modifies memory
    ensures Copied(old(memory[..]), memory[..], to, source, from, n)
  {
    forall i | 0 <= i < n {
      memory[to + i] := source[from + i];
    }
  }

  /////////////////////////////////////////////////////////////////////////////
  // Blocks
  /////////////////////////////////////////////////////////////////////////////

  /** n blocks in bytes, as a sum: the proofs about transfers need no products. */
  function Bytes(n: nat, size: nat): nat
    decreases n
  {
    if n == 0 then 0 else Bytes(n - 1, size) + size
  }

  lemma {:induction false} BytesValue(n: nat, size: nat)
    ensures Bytes(n, size) == n * size
    decreases n
  {
    if n > 0 {
      BytesValue(n - 1, size);
      OneBlockMore(n - 1, size);
    }
  }

  lemma {:induction false} OneBlockMore(n: nat, size: nat)
    ensures (n + 1) * size == n * size + size
  {
  }

  lemma {:induction false} BytesOn(a: nat, b: nat, size: nat)
    ensures Bytes(a + b, size) == Bytes(a, size) + Bytes(b, size)
    decreases b
  {
    if b > 0 {
      BytesOn(a, b - 1, size);
    }
  }

  lemma {:induction false} BytesWithin(a: nat, b: nat, size: nat)
    requires a <= b
    ensures Bytes(a, size) <= Bytes(b, size)
  {
    BytesOn(a, b - a, size);
  }

  /** malloc, which may refuse: how often it was asked and how often it refused. */
  class Allocator {
    ghost var asked: nat
    ghost var refused: nat

    method Grant() returns (granted: bool)
      modifies this
      ensures asked == old(asked) + 1 && refused == old(refused) + if granted then 0 else 1
    {
      granted := *;
      asked, refused := asked + 1, refused + if granted then 0 else 1;
    }

    /** malloc(block_size). */
    method AllocateBlock(size: nat) returns (tmp: array?<byte>)
      modifies this
      ensures tmp != null ==> fresh(tmp) && tmp.Length == size
      ensures asked == old(asked) + 1 && refused == old(refused) + if tmp == null then 1 else 0
    {
      var granted := Grant();
      if granted {
        tmp := new byte[size];
      } else {
        tmp := null;
      }
    }
  }

  /** Block numbers are 32 bits wide. */
  const MAX_BLOCKS: nat := 0xFFFF_FFFE

  /** What malloc and the disk have refused together. */
  ghost function Refusals(heap: Allocator, disk: Disk): nat
    reads heap, disk
  {
    heap.refused + disk.refused
  }

  class Disk {
    const blockSize: nat
    const blocks: nat
    var bytes: seq<byte>
    ghost var asked: nat  // how many transfers it was asked for
    ghost var refused: nat  // and how many of them moved no block

    predicate Valid() {
      0 < blockSize && blocks <= MAX_BLOCKS
    }

    /** How many of `count` blocks from `block` on this transfer will move; 0: it fails. */
    method Schedule(block: nat, count: nat) returns (n: nat)
      ensures n <= count && (n > 0 ==> block + n <= blocks && Bytes(block + n, blockSize) <= |bytes|)
    {
      n :| n <= count && (n > 0 ==> block + n <= blocks && Bytes(block + n, blockSize) <= |bytes|);
    }

    /** class->read: the n blocks it moved into memory; None: they do not fit there. */
    method Read(block: nat, count: nat, memory: array<byte>, to: nat) returns (r: Option<nat>)
      requires Valid()
      modifies memory, this`asked, this`refused
      ensures asked == old(asked) + 1 && refused == old(refused) + if r == Some(0) then 1 else 0
      ensures r.None? ==> memory[..] == old(memory[..]) && to + Bytes(count, blockSize) > memory.Length
      ensures r.Some? ==>
                && r.value <= count
                && (r.value > 0 ==> block + r.value <= blocks && to + Bytes(r.value, blockSize) <= memory.Length)
                && Copied(old(memory[..]), memory[..], to, bytes, Bytes(block, blockSize), Bytes(r.value, blockSize))
    {
      asked := asked + 1;
      var n := Schedule(block, count);
      BytesWithin(n, count, blockSize);
      if n == 0 {
        refused := refused + 1;
        return Some(0);
      }
      if to + Bytes(n, blockSize) > memory.Length {
        return None;
      }
      BytesOn(block, n, blockSize);
      var from := Bytes(block, blockSize);
      Copy(memory, to, bytes, from, Bytes(n, blockSize));
      return Some(n);
    }

    /** class->write: the n blocks it moved from memory; None: memory ends before them. */
    method Write(block: nat, count: nat, memory: seq<byte>, from: nat) returns (r: Option<nat>)
      requires Valid()
      modifies this
      ensures asked == old(asked) + 1 && refused == old(refused) + if r == Some(0) then 1 else 0
      ensures r.None? ==> bytes == old(bytes) && from + Bytes(count, blockSize) > |memory|
      ensures r.Some? ==>
                && r.value <= count
                && (r.value > 0 ==> block + r.value <= blocks && from + Bytes(r.value, blockSize) <= |memory|)
                && Copied(old(bytes), bytes, Bytes(block, blockSize), memory, from, Bytes(r.value, blockSize))
    {
      asked := asked + 1;
      var n := Schedule(block, count);
      BytesWithin(n, count, blockSize);
      if n == 0 {
        refused := refused + 1;
        return Some(0);
      }
      if from + Bytes(n, blockSize) > |memory| {
        return None;
      }
      BytesOn(block, n, blockSize);
      var to := Bytes(block, blockSize);
      var length := Bytes(n, blockSize);
      bytes := bytes[..to] + memory[from..from + length] + bytes[to + length..];
      return Some(n);
    }
  }
}
