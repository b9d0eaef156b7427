/**
 The block device layer (kernel/src/drivers/blockdev.c): byte-addressed reads and writes over
 disks that move whole blocks, and the registry of device classes and their instances.
 */
module BlockDevice {
  import opened Words
  import opened Disk

  /** The source returns 0 for Success and -1 otherwise; OutOfBounds is a step C gives no meaning. */
  datatype Status = Success | Failure | Busy | Inconsistent | OutOfBounds

  /////////////////////////////////////////////////////////////////////////////
  // The arithmetic of a transfer
  /////////////////////////////////////////////////////////////////////////////

  /** The first whole block of a transfer at offset. */
  function FirstBlock(offset: nat, size: nat): nat
    requires size > 0
  {
    if offset % size == 0 then offset / size else offset / size + 1
  }

  /** The bytes in front of it. */
  function HeadLength(offset: nat, size: nat): (h: nat)
    requires size > 0
    ensures h < size && offset + h == Bytes(FirstBlock(offset, size), size)
  {
    HeadForm(offset, size);
    if offset % size == 0 then 0 else size - offset % size
  }

  lemma {:induction false} HeadForm(offset: nat, size: nat)
    requires size > 0
    ensures Bytes(FirstBlock(offset, size), size) == offset + if offset % size == 0 then 0 else size - offset % size
  {
    OneBlockMore(offset / size, size);
    BytesValue(FirstBlock(offset, size), size);
  }

  /** nblocks: a 32-bit difference. */
  function BlockCount(offset: nat, len: nat, size: nat): nat
    requires size > 0
  {
    ((offset + len) / size - FirstBlock(offset, size)) % TWO32
  }

  /** The transfer begins on a block boundary or reaches the end of its first block. */
  predicate Fits(offset: nat, len: nat, size: nat)
    requires size > 0
  {
    offset % size == 0 || offset % size + len >= size
  }

  /** The bytes that a transfer moves, if it succeeds. */
  function Moved(offset: nat, len: nat, size: nat): nat
    requires size > 0
  {
    HeadLength(offset, size) + Bytes(BlockCount(offset, len, size), size) + (offset + len) % size
  }

  /** All whole blocks are counted in 32 bits. */
  predicate Countable(offset: nat, len: nat, size: nat)
    requires size > 0
  {
    (offset + len) / size - FirstBlock(offset, size) < TWO32
  }

  lemma {:induction false} FitsMeansAhead(offset: nat, len: nat, size: nat)
    requires size > 0
    ensures Fits(offset, len, size) <==> (offset + len) / size >= FirstBlock(offset, size)
    ensures !Fits(offset, len, size) ==> (offset + len) / size == FirstBlock(offset, size) - 1
    ensures Fits(offset, len, size) <==> HeadLength(offset, size) <= len
  {
    var q, r := offset / size, offset % size;
    OneBlockMore(q, size);
    assert offset == q * size + r;
    if r + len < size {
      Quotient(offset + len, size, q, r + len);
    } else {
      QuotientAtLeast(offset + len, size, q + 1);
    }
  }

  lemma {:induction false} Quotient(x: nat, size: nat, q: nat, r: nat)
    requires size > 0 && x == q * size + r && r < size
    ensures x / size == q
  {
    ModUnique(x, size, q, r);
  }

  lemma {:induction false} QuotientAtLeast(x: nat, size: nat, q: nat)
    requires size > 0 && x >= q * size
    ensures x / size >= q
  {
    if x / size < q {
      BytesValue(x / size, size);
      BytesValue(q, size);
      BytesWithin(x / size + 1, q, size);
    }
  }

  /** A transfer that fits moves len bytes exactly if its blocks are counted in 32 bits, and else fewer. */
  lemma {:induction false} MovedLength(offset: nat, len: nat, size: nat)
    requires size > 0 && Fits(offset, len, size)
    ensures Moved(offset, len, size) <= len
    ensures Moved(offset, len, size) == len <==> Countable(offset, len, size)
  {
    FitsMeansAhead(offset, len, size);
    WholeBlocks(offset + len, size);
    MovedBytes(offset, len, size, HeadLength(offset, size), FirstBlock(offset, size), (offset + len) / size,
               (offset + len) % size);
  }

  lemma {:induction false} WholeBlocks(x: nat, size: nat)
    requires size > 0
    ensures x == Bytes(x / size, size) + x % size
  {
    BytesValue(x / size, size);
  }

  lemma {:induction false} MovedBytes(offset: nat, len: nat, size: nat, head: nat, first: nat, last: nat, tail: nat)
    requires size > 0 && first <= last
    requires offset + head == Bytes(first, size) && offset + len == Bytes(last, size) + tail
    ensures head + Bytes((last - first) % TWO32, size) + tail <= len
    ensures head + Bytes((last - first) % TWO32, size) + tail == len <==> last - first < TWO32
  {
    TruncatedCount(first, last - first, size);
  }

  lemma {:induction false} TruncatedCount(first: nat, whole: nat, size: nat)
    requires size > 0
    ensures Bytes(first + whole, size) >= Bytes(first, size) + Bytes(whole % TWO32, size)
    ensures Bytes(first + whole, size) == Bytes(first, size) + Bytes(whole % TWO32, size) <==> whole < TWO32
  {
    var count := whole % TWO32;
    BytesOn(first, whole, size);
    BytesOn(count, whole - count, size);
    if count < whole {
      BytesWithin(1, whole - count, size);
    }
  }

  /////////////////////////////////////////////////////////////////////////////
  // Instances
  /////////////////////////////////////////////////////////////////////////////

  class Instance {
    const major: nat
    const minor: nat
    const blockSize: nat
    const capacity: nat
    const disk: Disk
    var refCount: nat

    constructor (major: nat, minor: nat, blockSize: nat, capacity: nat, disk: Disk)
      ensures this.major == major && this.minor == minor && this.disk == disk
      ensures this.blockSize == blockSize && this.capacity == capacity
      ensures refCount == 0
    {
      this.major, this.minor, this.blockSize, this.capacity, this.disk := major, minor, blockSize, capacity, disk;
      refCount := 0;
    }

    /** The instance describes its disk. */
    predicate Valid() {
      disk.Valid() && disk.blockSize == blockSize
    }

    /** release_blockdev_instance. */
    method Release()
      requires refCount > 0
      modifies this`refCount
      ensures refCount == old(refCount) - 1
    {
      refCount := refCount - 1;
    }
  }

  /** A part of a transfer ended: a failure has released the instance. */
  predicate Holding(instance: Instance, status: Status)
    reads instance
  {
    && status in {Success, Failure, OutOfBounds}
    && instance.refCount == if status == Failure then 0 else 1
  }

  /** A transfer ended and, unless it went out of bounds, has released the instance. */
  predicate Released(instance: Instance, status: Status)
    reads instance
  {
    && status in {Success, Failure, OutOfBounds}
    && (status != OutOfBounds ==> instance.refCount == 0)
  }

  /////////////////////////////////////////////////////////////////////////////
  // blockdev_read
  /////////////////////////////////////////////////////////////////////////////

  /** The step that both transfers begin a partial block with: a buffer of one block, read from the disk. */
  method Fetch(heap: Allocator, instance: Instance, block: nat) returns (tmp: array?<byte>, ghost empty: seq<byte>)
    requires instance.Valid() && instance.refCount == 1
    modifies instance`refCount, instance.disk`asked, instance.disk`refused, heap
    ensures instance.refCount == if tmp == null then 0 else 1
    ensures Refusals(heap, instance.disk) == old(Refusals(heap, instance.disk)) + if tmp == null then 1 else 0
    ensures tmp != null ==> heap.asked > old(heap.asked) && instance.disk.asked > old(instance.disk.asked)
    ensures tmp != null ==>
              && fresh(tmp) && tmp.Length == instance.blockSize == |empty|
              && Copied(empty, tmp[..], 0, instance.disk.bytes, Bytes(block, instance.blockSize), instance.blockSize)
  {
    var size := instance.blockSize;
    empty := [];
    tmp := heap.AllocateBlock(size);
    if tmp == null {
      instance.Release();
      return;
    }
    empty := tmp[..];
    var n := instance.disk.Read(block, 1, tmp, 0);
    if n != Some(1) {
      instance.Release();
      tmp := null;
    }
  }

  /** The part in front of the first whole block: it fails exactly if that block is not fetched. */
  method ReadHead(heap: Allocator, instance: Instance, block: nat, delta: nat, memory: array<byte>, to: nat)
    returns (status: Status)
    requires instance.Valid() && instance.refCount == 1 && 0 < delta < instance.blockSize
    modifies instance`refCount, instance.disk`asked, instance.disk`refused, heap, memory
    ensures Holding(instance, status)
    ensures Refusals(heap, instance.disk) == old(Refusals(heap, instance.disk)) + if status == Failure then 1 else 0
    ensures var size, bytes := instance.blockSize, instance.disk.bytes;
            && (status == OutOfBounds ==>
                  && to + size - delta > memory.Length
                  && heap.asked > old(heap.asked) && instance.disk.asked > old(instance.disk.asked))
            && (status != Success ==> memory[..] == old(memory[..]))
            && (status == Success ==>
                  to + size - delta <= memory.Length &&
                  Copied(old(memory[..]), memory[..], to, bytes, Bytes(block, size) + delta, size - delta))
  {
    var size := instance.blockSize;
    ghost var before, empty := memory[..], [];
    var tmp;
    tmp, empty := Fetch(heap, instance, block);
    if tmp == null {
      return Failure;
    }
    if to + size - delta > memory.Length {
      return OutOfBounds;
    }
    Copy(memory, to, tmp[..], delta, size - delta);
    CopiedThrough(empty, tmp[..], instance.disk.bytes, Bytes(block, size), size,
                  before, memory[..], to, delta, size - delta);
    return Success;
  }

  /** The part behind the last whole block. */
  method ReadTail(heap: Allocator, instance: Instance, block: nat, delta: nat, memory: array<byte>, to: nat)
    returns (status: Status)
    requires instance.Valid() && instance.refCount == 1 && 0 < delta < instance.blockSize
    modifies instance`refCount, instance.disk`asked, instance.disk`refused, heap, memory
    ensures Holding(instance, status)
    ensures Refusals(heap, instance.disk) == old(Refusals(heap, instance.disk)) + if status == Failure then 1 else 0
    ensures var size, bytes := instance.blockSize, instance.disk.bytes;
            && (status == OutOfBounds ==> to + delta > memory.Length)
            && (status != Success ==> memory[..] == old(memory[..]))
            && (status == Success ==>
                  to + delta <= memory.Length &&
                  Copied(old(memory[..]), memory[..], to, bytes, Bytes(block, size), delta))
  {
    var size := instance.blockSize;
    ghost var before, empty := memory[..], [];
    var tmp;
    tmp, empty := Fetch(heap, instance, block);
    if tmp == null {
      return Failure;
    }
    if to + delta > memory.Length {
      return OutOfBounds;
    }
    Copy(memory, to, tmp[..], 0, delta);
    CopiedThrough(empty, tmp[..], instance.disk.bytes, Bytes(block, size), size, before, memory[..], to, 0, delta);
    return Success;
  }

  /** n more blocks of the disk behind the `done` blocks from `start` on. */
  lemma {:induction false} CopiedBlocks(a: seq<byte>, b: seq<byte>, c: seq<byte>, to: nat, bytes: seq<byte>,
                                        start: nat, done: nat, n: nat, size: nat)
    requires Copied(a, b, to, bytes, Bytes(start, size), Bytes(done, size))
    requires Copied(b, c, to + Bytes(done, size), bytes, Bytes(start + done, size), Bytes(n, size))
    ensures Bytes(done + n, size) == Bytes(done, size) + Bytes(n, size)
    ensures Copied(a, c, to, bytes, Bytes(start, size), Bytes(done + n, size))
  {
    BytesOn(start, done, size);
    BytesOn(done, n, size);
    CopiedOn(a, b, c, to, bytes, Bytes(start, size), Bytes(done, size), Bytes(n, size));
  }

  /** One turn of the loop over whole blocks: the disk moves some of the `nblocks` that are left. */
  method ReadSome(instance: Instance, ghost start: nat, ghost done: nat, block: nat, nblocks: nat,
                  memory: array<byte>, ghost buffer: nat, to: nat, ghost before: seq<byte>)
    returns (r: Option<nat>)
    requires instance.Valid() && block == start + done
    requires to == buffer + Bytes(done, instance.blockSize) <= memory.Length
    requires var size, bytes := instance.blockSize, instance.disk.bytes;
             Copied(before, memory[..], buffer, bytes, Bytes(start, size), Bytes(done, size))
    modifies instance.disk`asked, instance.disk`refused, memory
    ensures instance.disk.refused == old(instance.disk.refused) + if r == Some(0) then 1 else 0
    ensures var size, bytes := instance.blockSize, instance.disk.bytes;
            var n := if r.Some? then r.value else 0;
            && (r.None? ==> buffer + Bytes(done + nblocks, size) > memory.Length)
            && n <= nblocks && (n > 0 ==> block + n <= instance.disk.blocks)
            && buffer + Bytes(done + n, size) == to + Bytes(n, size) <= memory.Length
            && Copied(before, memory[..], buffer, bytes, Bytes(start, size), Bytes(done + n, size))
  {
    var size := instance.blockSize;
    ghost var now := memory[..];
    r := instance.disk.Read(block, nblocks, memory, to);
    if r.None? {
      BytesOn(done, nblocks, size);
    } else {
      CopiedBlocks(before, now, memory[..], buffer, instance.disk.bytes, start, done, r.value, size);
    }
  }

  /** The loop over whole blocks: `done` of them have been moved. */
  method ReadBlocks(instance: Instance, start: nat, count: nat, memory: array<byte>, buffer: nat)
    returns (status: Status, ghost done: nat)
    requires instance.Valid() && instance.refCount == 1 && buffer <= memory.Length
    modifies instance`refCount, instance.disk`asked, instance.disk`refused, memory
    ensures Holding(instance, status)
    ensures instance.disk.refused == old(instance.disk.refused) + if status == Failure then 1 else 0
    ensures done <= count && (done > 0 ==> start + done <= instance.disk.blocks)
    ensures (status == Success ==> done == count)
    ensures var size, bytes := instance.blockSize, instance.disk.bytes;
            && (status == OutOfBounds ==> buffer + Bytes(count, size) > memory.Length)
            && buffer + Bytes(done, size) <= memory.Length
            && Copied(old(memory[..]), memory[..], buffer, bytes, Bytes(start, size), Bytes(done, size))
  {
    var size := instance.blockSize;
    ghost var bytes, before := instance.disk.bytes, memory[..];
    var nblocks, block, to := count, start, buffer;
    done := 0;
    CopiedNothing(before, buffer, bytes, Bytes(start, size));
    while nblocks > 0
      invariant done + nblocks == count && block == start + done && to == buffer + Bytes(done, size) <= memory.Length
      invariant instance.disk.refused == old(instance.disk.refused)
      invariant instance.refCount == 1 && (done > 0 ==> start + done <= instance.disk.blocks)
      invariant Copied(before, memory[..], buffer, bytes, Bytes(start, size), Bytes(done, size))
    {
      var n := ReadSome(instance, start, done, block, nblocks, memory, buffer, to, before);
      if n.None? {
        status := OutOfBounds;
        return;
      }
      if n == Some(0) {
        instance.Release();
        status := Failure;
        return;
      }
      to, nblocks, block := to + Bytes(n.value, size), nblocks - n.value, block + n.value;
      done := done + n.value;
    }
    status := Success;
  }

  /** The whole blocks and the part behind them: `moved` bytes in all. */
  method ReadRest(heap: Allocator, instance: Instance, start: nat, count: nat, delta: nat, memory: array<byte>,
                  buffer: nat)
    returns (status: Status, ghost moved: nat)
    requires instance.Valid() && instance.refCount == 1 && delta < instance.blockSize && buffer <= memory.Length
    modifies instance`refCount, instance.disk`asked, instance.disk`refused, heap, memory
    ensures Released(instance, status)
    ensures Refusals(heap, instance.disk) == old(Refusals(heap, instance.disk)) + if status == Failure then 1 else 0
    ensures status == Success && count > 0 ==> start + count <= instance.disk.blocks
    ensures var size, bytes := instance.blockSize, instance.disk.bytes;
            && (status == OutOfBounds ==> buffer + Bytes(count, size) + delta > memory.Length)
            && moved <= Bytes(count, size) + delta && (status == Success ==> moved == Bytes(count, size) + delta)
            && buffer + moved <= memory.Length
            && Copied(old(memory[..]), memory[..], buffer, bytes, Bytes(start, size), moved)
  {
    var size := instance.blockSize;
    ghost var bytes, before := instance.disk.bytes, memory[..];
    ghost var done;
    status, done := ReadBlocks(instance, start, count, memory, buffer);
    BytesWithin(done, count, size);
    moved := Bytes(done, size);
    if status != Success {
      return;
    }
    if delta > 0 {
      BytesOn(start, count, size);
      ghost var now := memory[..];
      status := ReadTail(heap, instance, start + count, delta, memory, buffer + Bytes(count, size));
      if status != Success {
        return;
      }
      CopiedOn(before, now, memory[..], buffer, bytes, Bytes(start, size), moved, delta);
      moved := moved + delta;
    }
    instance.Release();
  }

  /**
   How far a transfer has come with the head in front of its first whole block, for `room` bytes
   of memory: its block is fetched unless malloc or the disk refuses, and then the head moves
   unless memory ends before it.
   */
  predicate HeadEnds(status: Status, fetched: bool, moved: nat, head: nat, buffer: nat, room: nat) {
    && (moved >= head <==> fetched && buffer + head <= room)
    && (moved < head ==> moved == 0 && status == if fetched then OutOfBounds else Failure)
  }

  /**
   The transfer of blockdev_read.  Whatever the disk does, the `moved` bytes moved so far are
   those from `offset` on, and they lie in memory from `buffer` on.  A transfer that fits stays in
   its buffer and fails only if malloc or the disk refuses.  The head of any other is longer than
   the buffer, and it is moved as soon as its block is fetched and if there is memory behind the
   buffer: nothing else stops it.
   */
  method ReadFrom(heap: Allocator, instance: Instance, offset: nat, len: nat, memory: array<byte>, buffer: nat)
    returns (status: Status, ghost moved: nat, ghost fetched: bool)
    requires instance.Valid() && instance.refCount == 1 && buffer + len <= memory.Length
    modifies instance`refCount, instance.disk`asked, instance.disk`refused, heap, memory
    ensures Released(instance, status)
    ensures Refusals(heap, instance.disk) == old(Refusals(heap, instance.disk)) + if status == Failure then 1 else 0
    ensures status == Success ==>
              Fits(offset, len, instance.blockSize) && moved == Moved(offset, len, instance.blockSize)
    ensures Fits(offset, len, instance.blockSize) ==> status != OutOfBounds && moved <= len
    ensures !Fits(offset, len, instance.blockSize) ==> status != Success && HeadLength(offset, instance.blockSize) > len
    ensures var head := HeadLength(offset, instance.blockSize);
            && HeadEnds(status, fetched, moved, head, buffer, memory.Length)
            && (fetched && moved < head ==>
                  heap.asked > old(heap.asked) && instance.disk.asked > old(instance.disk.asked))
    ensures Copied(old(memory[..]), memory[..], buffer, instance.disk.bytes, offset, moved)
  {
    var size := instance.blockSize;
    Plan(offset, len, size);
    status, moved, fetched := ReadParts(heap, instance, offset, offset / size, offset % size,
                                        BlockCount(offset, len, size), (offset + len) % size, memory, buffer);
  }

  /** Its three parts, for quantities already worked out. */
  method ReadParts(heap: Allocator, instance: Instance, ghost offset: nat, first: nat, delta: nat, count: nat,
                   tail: nat,
                   memory: array<byte>, buffer: nat)
    returns (status: Status, ghost moved: nat, ghost fetched: bool)
    requires instance.Valid() && instance.refCount == 1 && buffer <= memory.Length
    requires delta < instance.blockSize && tail < instance.blockSize
    requires offset == Bytes(first, instance.blockSize) + delta
    modifies instance`refCount, instance.disk`asked, instance.disk`refused, heap, memory
    ensures Released(instance, status)
    ensures Refusals(heap, instance.disk) == old(Refusals(heap, instance.disk)) + if status == Failure then 1 else 0
    ensures Copied(old(memory[..]), memory[..], buffer, instance.disk.bytes, offset, moved)
    ensures var head := if delta > 0 then instance.blockSize - delta else 0;
            var planned := head + Bytes(count, instance.blockSize) + tail;
            && moved <= planned && HeadEnds(status, fetched, moved, head, buffer, memory.Length)
            && (fetched && moved < head ==>
                  heap.asked > old(heap.asked) && instance.disk.asked > old(instance.disk.asked))
            && (status == Success ==> moved == planned && count <= MAX_BLOCKS)
            && (status == OutOfBounds ==> buffer + planned > memory.Length)
  {
    var size := instance.blockSize;
    ghost var bytes, before := instance.disk.bytes, memory[..];
    var block, to := first, buffer;
    moved, fetched := 0, true;
    CopiedNothing(before, buffer, bytes, offset);
    if delta > 0 {
      status := ReadHead(heap, instance, block, delta, memory, to);
      fetched := status != Failure;
      if status != Success {
        return;
      }
      to, block, moved := to + size - delta, block + 1, size - delta;
    }
    ghost var now, rest := memory[..], 0;
    status, rest := ReadRest(heap, instance, block, count, tail, memory, to);
    CopiedOn(before, now, memory[..], buffer, bytes, offset, moved, rest);
    moved := moved + rest;
  }

  /** The facts about its quantities that a transfer needs. */
  lemma {:induction false} Plan(offset: nat, len: nat, size: nat)
    requires size > 0
    ensures offset == Bytes(offset / size, size) + offset % size
    ensures offset + HeadLength(offset, size) == Bytes(FirstBlock(offset, size), size)
    ensures HeadLength(offset, size) == if offset % size > 0 then size - offset % size else 0
    ensures Moved(offset, len, size) ==
            HeadLength(offset, size) + Bytes(BlockCount(offset, len, size), size) + (offset + len) % size
    ensures Fits(offset, len, size) ==> HeadLength(offset, size) <= len && Moved(offset, len, size) <= len
    ensures !Fits(offset, len, size) ==> BlockCount(offset, len, size) > MAX_BLOCKS && HeadLength(offset, size) > len
  {
    BytesValue(offset / size, size);
    FitsMeansAhead(offset, len, size);
    if Fits(offset, len, size) {
      MovedLength(offset, len, size);
    }
  }

  /////////////////////////////////////////////////////////////////////////////
  // blockdev_write
  /////////////////////////////////////////////////////////////////////////////

  /** A block goes back to the disk as it was read. */
  method WriteBack(instance: Instance, block: nat, tmp: seq<byte>, ghost empty: seq<byte>) returns (status: Status)
    requires instance.Valid() && instance.refCount == 1 && |tmp| == instance.blockSize == |empty|
    requires Copied(empty, tmp, 0, instance.disk.bytes, Bytes(block, instance.blockSize), instance.blockSize)
    modifies instance`refCount, instance.disk
    ensures status in {Success, Failure} && Holding(instance, status)
    ensures instance.disk.bytes == old(instance.disk.bytes)
    ensures instance.disk.refused == old(instance.disk.refused) + if status == Failure then 1 else 0
  {
    ghost var size, bytes := instance.blockSize, instance.disk.bytes;
    var n := instance.disk.Write(block, 1, tmp, 0);
    if n != Some(1) {
      CopiedMeans(bytes, instance.disk.bytes, Bytes(block, size), tmp, 0, 0);
      instance.Release();
      return Failure;
    }
    CopiedBack(empty, tmp, bytes, instance.disk.bytes, Bytes(block, size), size);
    return Success;
  }

  /**
   The part in front of the first whole block.  The source copies from the block to the caller's
   buffer here and writes the block back as it was: the disk keeps its bytes.
   */
  method WriteHead(heap: Allocator, instance: Instance, block: nat, delta: nat, memory: array<byte>, src: nat)
    returns (status: Status, ghost fetched: bool)
    requires instance.Valid() && instance.refCount == 1 && 0 < delta < instance.blockSize
    modifies instance`refCount, instance.disk, heap, memory
    ensures Holding(instance, status)
    ensures Refusals(heap, instance.disk) == old(Refusals(heap, instance.disk)) + if status == Failure then 1 else 0
    ensures instance.disk.bytes == old(instance.disk.bytes)
    ensures var size, bytes := instance.blockSize, instance.disk.bytes;
            if fetched && src + size - delta <= memory.Length then
              && status != OutOfBounds
              && Copied(old(memory[..]), memory[..], src, bytes, Bytes(block, size) + delta, size - delta)
            else
              && memory[..] == old(memory[..]) && status == (if fetched then OutOfBounds else Failure)
              && (fetched ==> heap.asked > old(heap.asked) && instance.disk.asked > old(instance.disk.asked))
  {
    var size := instance.blockSize;
    ghost var bytes, before := instance.disk.bytes, memory[..];
    ghost var empty := [];
    var tmp;
    tmp, empty := Fetch(heap, instance, block);
    fetched := tmp != null;
    if tmp == null {
      status := Failure;
      return;
    }
    if src + size - delta > memory.Length {
      status := OutOfBounds;
      return;
    }
    Copy(memory, src, tmp[..], delta, size - delta);
    CopiedThrough(empty, tmp[..], bytes, Bytes(block, size), size, before, memory[..], src, delta, size - delta);
    status := WriteBack(instance, block, tmp[..], empty);
  }

  /** n more blocks to the disk behind the `done` blocks from `start` on. */
  lemma {:induction false} BlocksCopied(a: seq<byte>, b: seq<byte>, c: seq<byte>, start: nat, source: seq<byte>,
                                        from: nat,
                                        done: nat, n: nat, size: nat)
    requires Copied(a, b, Bytes(start, size), source, from, Bytes(done, size))
    requires Copied(b, c, Bytes(start + done, size), source, from + Bytes(done, size), Bytes(n, size))
    ensures Bytes(done + n, size) == Bytes(done, size) + Bytes(n, size)
    ensures Copied(a, c, Bytes(start, size), source, from, Bytes(done + n, size))
  {
    BytesOn(start, done, size);
    BytesOn(done, n, size);
    CopiedOn(a, b, c, Bytes(start, size), source, from, Bytes(done, size), Bytes(n, size));
  }

  /** One turn of the loop over whole blocks. */
  method WriteSome(instance: Instance, ghost start: nat, ghost done: nat, block: nat, nblocks: nat,
                   memory: seq<byte>, ghost buffer: nat, src: nat, ghost bytes: seq<byte>)
    returns (r: Option<nat>)
    requires instance.Valid() && block == start + done
    requires src == buffer + Bytes(done, instance.blockSize) <= |memory|
    requires var size := instance.blockSize;
             Copied(bytes, instance.disk.bytes, Bytes(start, size), memory, buffer, Bytes(done, size))
    modifies instance.disk
    ensures instance.disk.refused == old(instance.disk.refused) + if r == Some(0) then 1 else 0
    ensures var size, n := instance.blockSize, if r.Some? then r.value else 0;
            && (r.None? ==> buffer + Bytes(done + nblocks, size) > |memory|)
            && n <= nblocks && (n > 0 ==> block + n <= instance.disk.blocks)
            && buffer + Bytes(done + n, size) == src + Bytes(n, size) <= |memory|
            && Copied(bytes, instance.disk.bytes, Bytes(start, size), memory, buffer, Bytes(done + n, size))
  {
    var size := instance.blockSize;
    ghost var now := instance.disk.bytes;
    r := instance.disk.Write(block, nblocks, memory, src);
    if r.None? {
      BytesOn(done, nblocks, size);
    } else {
      BlocksCopied(bytes, now, instance.disk.bytes, start, memory, buffer, done, r.value, size);
    }
  }

  /** The loop over whole blocks: `done` of them have been moved. */
  method WriteBlocks(instance: Instance, start: nat, count: nat, memory: seq<byte>, buffer: nat)
    returns (status: Status, ghost done: nat)
    requires instance.Valid() && instance.refCount == 1 && buffer <= |memory|
    modifies instance`refCount, instance.disk
    ensures Holding(instance, status)
    ensures instance.disk.refused == old(instance.disk.refused) + if status == Failure then 1 else 0
    ensures done <= count && (done > 0 ==> start + done <= instance.disk.blocks)
    ensures (status == Success ==> done == count)
    ensures var size, bytes := instance.blockSize, old(instance.disk.bytes);
            && (status == OutOfBounds ==> buffer + Bytes(count, size) > |memory|)
            && buffer + Bytes(done, size) <= |memory|
            && Copied(bytes, instance.disk.bytes, Bytes(start, size), memory, buffer, Bytes(done, size))
  {
    var size := instance.blockSize;
    ghost var bytes := instance.disk.bytes;
    var nblocks, block, src := count, start, buffer;
    done := 0;
    CopiedNothing(bytes, Bytes(start, size), memory, buffer);
    while nblocks > 0
      invariant done + nblocks == count && block == start + done && src == buffer + Bytes(done, size) <= |memory|
      invariant instance.disk.refused == old(instance.disk.refused)
      invariant instance.refCount == 1 && (done > 0 ==> start + done <= instance.disk.blocks)
      invariant Copied(bytes, instance.disk.bytes, Bytes(start, size), memory, buffer, Bytes(done, size))
    {
      var n := WriteSome(instance, start, done, block, nblocks, memory, buffer, src, bytes);
      if n.None? {
        status := OutOfBounds;
        return;
      }
      if n == Some(0) {
        instance.Release();
        status := Failure;
        return;
      }
      src, nblocks, block := src + Bytes(n.value, size), nblocks - n.value, block + n.value;
      done := done + n.value;
    }
    status := Success;
  }

  /** The part behind the last whole block: the rest of that block keeps its bytes. */
  method WriteTail(heap: Allocator, instance: Instance, block: nat, delta: nat, memory: seq<byte>, src: nat)
    returns (status: Status)
    requires instance.Valid() && instance.refCount == 1 && 0 < delta < instance.blockSize
    modifies instance`refCount, instance.disk, heap
    ensures Holding(instance, status)
    ensures Refusals(heap, instance.disk) == old(Refusals(heap, instance.disk)) + if status == Failure then 1 else 0
    ensures var size, bytes := instance.blockSize, old(instance.disk.bytes);
            && (status == OutOfBounds ==> src + delta > |memory|)
            && (status != Success ==> instance.disk.bytes == bytes)
            && (status == Success ==>
                  src + delta <= |memory| && Copied(bytes, instance.disk.bytes, Bytes(block, size), memory, src, delta))
  {
    var size := instance.blockSize;
    ghost var bytes := instance.disk.bytes;
    ghost var empty := [];
    var tmp;
    tmp, empty := Fetch(heap, instance, block);
    if tmp == null {
      return Failure;
    }
    if src + delta > |memory| {
      return OutOfBounds;
    }
    ghost var read := tmp[..];
    Copy(tmp, 0, memory, src, delta);
    var n := instance.disk.Write(block, 1, tmp[..], 0);
    if n != Some(1) {
      CopiedMeans(bytes, instance.disk.bytes, Bytes(block, size), tmp[..], 0, 0);
      instance.Release();
      return Failure;
    }
    CopiedPatch(empty, read, tmp[..], bytes, instance.disk.bytes, Bytes(block, size), size, memory, src, delta);
    return Success;
  }

  /** The whole blocks and the part behind them: `moved` bytes in all. */
  method WriteRest(heap: Allocator, instance: Instance, start: nat, count: nat, delta: nat, memory: seq<byte>,
                   buffer: nat)
    returns (status: Status, ghost moved: nat)
    requires instance.Valid() && instance.refCount == 1 && delta < instance.blockSize && buffer <= |memory|
    modifies instance`refCount, instance.disk, heap
    ensures Released(instance, status)
    ensures Refusals(heap, instance.disk) == old(Refusals(heap, instance.disk)) + if status == Failure then 1 else 0
    ensures status == Success && count > 0 ==> start + count <= instance.disk.blocks
    ensures var size, bytes := instance.blockSize, old(instance.disk.bytes);
            && (status == OutOfBounds ==> buffer + Bytes(count, size) + delta > |memory|)
            && moved <= Bytes(count, size) + delta && (status == Success ==> moved == Bytes(count, size) + delta)
            && buffer + moved <= |memory|
            && Copied(bytes, instance.disk.bytes, Bytes(start, size), memory, buffer, moved)
  {
    var size := instance.blockSize;
    ghost var bytes := instance.disk.bytes;
    ghost var done;
    status, done := WriteBlocks(instance, start, count, memory, buffer);
    BytesWithin(done, count, size);
    moved := Bytes(done, size);
    if status != Success {
      return;
    }
    if delta > 0 {
      BytesOn(start, count, size);
      ghost var now := instance.disk.bytes;
      status := WriteTail(heap, instance, start + count, delta, memory, buffer + Bytes(count, size));
      if status != Success {
        return;
      }
      CopiedOn(bytes, now, instance.disk.bytes, Bytes(start, size), memory, buffer, moved, delta);
      moved := moved + delta;
    }
    instance.Release();
  }

  /**
   The transfer of blockdev_write: `moved` bytes have gone to the disk, all of them behind the
   head, whose bytes have gone the other way.  A transfer that fits stays in its buffer and fails
   only if malloc or the disk refuses.  The head of any other is longer than its buffer, and
   overruns it as soon as its block is fetched and if there is memory behind the buffer.
   */
  method WriteFrom(heap: Allocator, instance: Instance, offset: nat, len: nat, memory: array<byte>, buffer: nat)
    returns (status: Status, ghost moved: nat, ghost fetched: bool)
    requires instance.Valid() && instance.refCount == 1 && buffer + len <= memory.Length
    modifies instance`refCount, instance.disk, heap, memory
    ensures Released(instance, status)
    ensures Refusals(heap, instance.disk) == old(Refusals(heap, instance.disk)) + if status == Failure then 1 else 0
    ensures var size, bytes, before := instance.blockSize, old(instance.disk.bytes), old(memory[..]);
            var head := HeadLength(offset, size);
            && (status == Success ==> Fits(offset, len, size) && head + moved == Moved(offset, len, size))
            && (if Fits(offset, len, size) then status != OutOfBounds && head + moved <= len
                else status != Success && head > len)
            && HeadGoesBack(status, fetched, before, memory[..], buffer, bytes, offset, head, moved)
            && (fetched && buffer + head > memory.Length ==>
                  heap.asked > old(heap.asked) && instance.disk.asked > old(instance.disk.asked))
            && Copied(bytes, instance.disk.bytes, offset + head, before, buffer + head, moved)
  {
    var size := instance.blockSize;
    Plan(offset, len, size);
    status, moved, fetched := WriteParts(heap, instance, offset, offset / size, offset % size,
                                         BlockCount(offset, len, size), (offset + len) % size, memory, buffer);
  }

  /** The head of a write has gone from the disk to memory, or nothing has moved at all. */
  ghost predicate HeadGoesBack(status: Status, fetched: bool, before: seq<byte>, after: seq<byte>, buffer: nat,
                               bytes: seq<byte>, offset: nat, head: nat, moved: nat)
  {
    if fetched && buffer + head <= |before| then Copied(before, after, buffer, bytes, offset, head)
    else after == before && moved == 0 && status == if fetched then OutOfBounds else Failure
  }

  /** Its three parts, for quantities already worked out. */
  method WriteParts(heap: Allocator, instance: Instance, ghost offset: nat, first: nat, delta: nat, count: nat,
                    tail: nat,
                    memory: array<byte>, buffer: nat)
    returns (status: Status, ghost moved: nat, ghost fetched: bool)
    requires instance.Valid() && instance.refCount == 1 && buffer <= memory.Length
    requires delta < instance.blockSize && tail < instance.blockSize
    requires offset == Bytes(first, instance.blockSize) + delta
    modifies instance`refCount, instance.disk, heap, memory
    ensures Released(instance, status)
    ensures Refusals(heap, instance.disk) == old(Refusals(heap, instance.disk)) + if status == Failure then 1 else 0
    ensures var bytes, before := old(instance.disk.bytes), old(memory[..]);
            var head := if delta > 0 then instance.blockSize - delta else 0;
            var planned := Bytes(count, instance.blockSize) + tail;
            && HeadGoesBack(status, fetched, before, memory[..], buffer, bytes, offset, head, moved)
            && (fetched && buffer + head > memory.Length ==>
                  heap.asked > old(heap.asked) && instance.disk.asked > old(instance.disk.asked))
            && Copied(bytes, instance.disk.bytes, offset + head, before, buffer + head, moved)
            && moved <= planned
            && (status == Success ==> moved == planned && count <= MAX_BLOCKS)
            && (status == OutOfBounds ==> buffer + head + planned > memory.Length)
  {
    var size := instance.blockSize;
    ghost var bytes, before := instance.disk.bytes, memory[..];
    var block, src := first, buffer;
    moved, fetched := 0, true;
    ghost var head := if delta > 0 then size - delta else 0;
    if delta > 0 {
      status, fetched := WriteHead(heap, instance, block, delta, memory, src);
      if status != Success {
        CopiedNothing(bytes, offset + head, before, buffer + head);
        return;
      }
      src, block := src + size - delta, block + 1;
    } else {
      CopiedNothing(before, buffer, bytes, offset);
    }
    assert Copied(before, memory[..], buffer, bytes, offset, head) && Bytes(block, size) == offset + head;
    status, moved := WriteRest(heap, instance, block, count, tail, memory[..], src);
    CopiedBehind(before, memory[..], buffer, bytes, offset, head, bytes, instance.disk.bytes, offset + head, moved);
  }

  /////////////////////////////////////////////////////////////////////////////
  // What the callers get
  /////////////////////////////////////////////////////////////////////////////

  /** The n bytes of memory from `to` on are those of the disk from `from` on, and the others as before. */
  predicate FilledFrom(memory: seq<byte>, after: seq<byte>, to: nat, bytes: seq<byte>, from: nat, n: nat) {
    InRange(memory, to, n) && InRange(bytes, from, n) && after == Replaced(memory, to, bytes, from, n)
  }

  /**
   The result of blockdev_read on a disk that holds `bytes`, with `memory` before and `after`.
   A success has filled the buffer from the disk and touched nothing else; it is short exactly
   if the blocks cannot be counted in 32 bits.  A transfer that fits never leaves its buffer.  Once
   the block of the head is fetched, at least the head is moved, whatever the length of the buffer,
   unless memory ends before it; otherwise nothing is.
   */
  ghost predicate ReadResult(status: Status, fetched: bool, bytes: seq<byte>, size: nat, offset: nat, len: nat,
                       memory: seq<byte>, after: seq<byte>, buffer: nat)
  {
    && size > 0
    && (status == Success ==> ReadDone(bytes, size, offset, len, memory, after, buffer))
    && (Fits(offset, len, size) ==> status != OutOfBounds && SameOutside(memory, after, buffer, len))
    && (if fetched && buffer + HeadLength(offset, size) <= |memory|
        then FilledAtLeast(memory, after, buffer, bytes, offset, HeadLength(offset, size))
        else after == memory && status == if fetched then OutOfBounds else Failure)
  }

  predicate ReadDone(bytes: seq<byte>, size: nat, offset: nat, len: nat, memory: seq<byte>, after: seq<byte>,
                     buffer: nat)
    requires size > 0
  {
    && Fits(offset, len, size)
    && var n := Moved(offset, len, size);
       && n <= len && (n == len <==> Countable(offset, len, size))
       && FilledFrom(memory, after, buffer, bytes, offset, n)
  }

  ghost predicate FilledAtLeast(memory: seq<byte>, after: seq<byte>, to: nat, bytes: seq<byte>, from: nat, head: nat)
  {
    exists n | n >= head :: FilledFrom(memory, after, to, bytes, from, n)
  }

  lemma {:induction false} ReadMeans(status: Status, fetched: bool, bytes: seq<byte>, size: nat, offset: nat, len: nat,
                                     memory: seq<byte>, after: seq<byte>, buffer: nat, moved: nat)
    requires size > 0 && Copied(memory, after, buffer, bytes, offset, moved)
    requires status == Success ==> Fits(offset, len, size) && moved == Moved(offset, len, size)
    requires Fits(offset, len, size) ==> status != OutOfBounds && moved <= len
    requires HeadEnds(status, fetched, moved, HeadLength(offset, size), buffer, |memory|)
    ensures ReadResult(status, fetched, bytes, size, offset, len, memory, after, buffer)
  {
    CopiedMeans(memory, after, buffer, bytes, offset, moved);
    assert FilledFrom(memory, after, buffer, bytes, offset, moved);
    if Fits(offset, len, size) {
      MovedLength(offset, len, size);
      CopiedInside(memory, after, buffer, bytes, offset, moved, buffer, len);
    }
  }

  /**
   The result of blockdev_write.  The bytes behind the head go to the disk, and no byte outside
   the range changes, not even in a block that is written in part; those of the head go from the
   disk to the caller's buffer, once its block is fetched and whatever the length of the buffer,
   unless memory ends before them.
   */
  ghost predicate WriteResult(status: Status, fetched: bool, bytes: seq<byte>, bytes': seq<byte>, size: nat,
                              offset: nat, len: nat, memory: seq<byte>, after: seq<byte>, buffer: nat)
  {
    && size > 0
    && (status == Success ==> WriteDone(bytes, bytes', size, offset, len, memory, after, buffer))
    && var head := HeadLength(offset, size);
       && (Fits(offset, len, size) ==> status != OutOfBounds && SameOutside(bytes, bytes', offset, len))
       && FilledAtLeast(bytes, bytes', offset + head, memory, buffer + head, 0)
       && (if fetched && buffer + head <= |memory| then FilledFrom(memory, after, buffer, bytes, offset, head)
           else after == memory && bytes' == bytes && status == if fetched then OutOfBounds else Failure)
  }

  predicate WriteDone(bytes: seq<byte>, bytes': seq<byte>, size: nat, offset: nat, len: nat,
                      memory: seq<byte>, after: seq<byte>, buffer: nat)
    requires size > 0
  {
    var head, n := HeadLength(offset, size), Moved(offset, len, size);
    && Fits(offset, len, size) && head <= n <= len && (n == len <==> Countable(offset, len, size))
    && InRange(bytes, offset + head, n - head) && InRange(memory, buffer + head, n - head)
    && bytes' == Replaced(bytes, offset + head, memory, buffer + head, n - head)
    && InRange(bytes, offset, head) && InRange(memory, buffer, head)
    && after == Replaced(memory, buffer, bytes, offset, head)
  }

  lemma {:induction false} WriteDoneMeans(bytes: seq<byte>, bytes': seq<byte>, size: nat, offset: nat, len: nat,
                                          memory: seq<byte>, after: seq<byte>, buffer: nat)
    requires size > 0 && Fits(offset, len, size)
    requires var head := HeadLength(offset, size);
             && Copied(memory, after, buffer, bytes, offset, head)
             && Moved(offset, len, size) >= head
             && Copied(bytes, bytes', offset + head, memory, buffer + head, Moved(offset, len, size) - head)
    ensures WriteDone(bytes, bytes', size, offset, len, memory, after, buffer)
  {
    var head := HeadLength(offset, size);
    MovedLength(offset, len, size);
    CopiedMeans(memory, after, buffer, bytes, offset, head);
    CopiedMeans(bytes, bytes', offset + head, memory, buffer + head, Moved(offset, len, size) - head);
  }

  lemma {:induction false} WriteMeans(status: Status, fetched: bool, bytes: seq<byte>, bytes': seq<byte>, size: nat,
                                      offset: nat, len: nat,
                                      memory: seq<byte>, after: seq<byte>, buffer: nat, moved: nat)
    requires size > 0
    requires var head := HeadLength(offset, size);
             && (status == Success ==> Fits(offset, len, size) && head + moved == Moved(offset, len, size))
             && (Fits(offset, len, size) ==> status != OutOfBounds && head + moved <= len)
             && (status == Success ==> fetched && buffer + head <= |memory|)
             && HeadGoesBack(status, fetched, memory, after, buffer, bytes, offset, head, moved)
             && Copied(bytes, bytes', offset + head, memory, buffer + head, moved)
    ensures WriteResult(status, fetched, bytes, bytes', size, offset, len, memory, after, buffer)
  {
    var head := HeadLength(offset, size);
    if status == Success {
      WriteDoneMeans(bytes, bytes', size, offset, len, memory, after, buffer);
    }
    if Fits(offset, len, size) {
      CopiedInside(bytes, bytes', offset + head, memory, buffer + head, moved, offset, len);
    }
    CopiedMeans(bytes, bytes', offset + head, memory, buffer + head, moved);
    assert FilledFrom(bytes, bytes', offset + head, memory, buffer + head, moved);
    if fetched && buffer + head <= |memory| {
      CopiedMeans(memory, after, buffer, bytes, offset, head);
    }
  }

  /**
   A successful write puts the caller's bytes on the disk if and only if the disk holds those of
   the head already.  At a block boundary there is no head: the write is exact and the caller's
   buffer is left alone.
   */
  lemma {:induction false} WriteExact(bytes: seq<byte>, bytes': seq<byte>, size: nat, offset: nat, len: nat,
                                      memory: seq<byte>, after: seq<byte>, buffer: nat)
    requires WriteResult(Success, true, bytes, bytes', size, offset, len, memory, after, buffer)
    requires 0 < len && buffer + len <= |memory| && Countable(offset, len, size)
    ensures offset + len <= |bytes| && |bytes'| == |bytes|
    ensures var head := HeadLength(offset, size);
            bytes'[offset..offset + len] == memory[buffer..buffer + len] <==>
            bytes[offset..offset + head] == memory[buffer..buffer + head]
    ensures offset % size == 0 ==>
              bytes' == bytes[..offset] + memory[buffer..buffer + len] + bytes[offset + len..] && after == memory
  {
    var head := HeadLength(offset, size);
    assert Moved(offset, len, size) == len;
    RestReplaced(bytes, bytes', memory, offset, buffer, head, len);
  }

  /** The head was there already if and only if all bytes are there behind the head's. */
  lemma {:induction false} RestReplaced(bytes: seq<byte>, bytes': seq<byte>, memory: seq<byte>, offset: nat,
                                        buffer: nat, head: nat, len: nat)
    requires head <= len && 0 < len && buffer + len <= |memory| && InRange(bytes, offset, head)
    requires InRange(bytes, offset + head, len - head)
    requires bytes' == Replaced(bytes, offset + head, memory, buffer + head, len - head)
    ensures offset + len <= |bytes| && |bytes'| == |bytes|
    ensures bytes'[offset..offset + len] == memory[buffer..buffer + len] <==>
            bytes[offset..offset + head] == memory[buffer..buffer + head]
    ensures head == 0 ==> bytes' == bytes[..offset] + memory[buffer..buffer + len] + bytes[offset + len..]
  {
    var rest := memory[buffer + head..buffer + len];
    assert bytes'[offset..offset + len] == bytes[offset..offset + head] + rest;
    assert memory[buffer..buffer + len] == memory[buffer..buffer + head] + rest;
    CommonEnd(bytes[offset..offset + head], memory[buffer..buffer + head], rest);
  }

  /** Three ones written to byte 1 of a zeroed disk with blocks of two bytes: the first stays zero. */
  lemma {:induction false} UnalignedWriteLosesHead()
    ensures Countable(1, 3, 2)
    ensures WriteResult(Success, true, [0, 0, 0, 0], [0, 0, 1, 1], 2, 1, 3, [1, 1, 1], [0, 1, 1], 0)
    ensures [0, 0, 1, 1][1..4] != [1, 1, 1]
  {
    assert HeadLength(1, 2) == 1 && BlockCount(1, 3, 2) == 1 && Bytes(1, 2) == 2 && Moved(1, 3, 2) == 3;
    assert [0, 0, 1, 1][1] == 0;
    assert FilledFrom([0, 0, 0, 0], [0, 0, 1, 1], 2, [1, 1, 1], 1, 2);
  }

  /**
   A transfer that ends inside its first block overruns its buffer as soon as that block is
   fetched: behind the caller's len bytes memory then holds those of the disk up to the end of the
   block.
   */
  lemma {:induction false} ReadOverruns(status: Status, bytes: seq<byte>, size: nat, offset: nat, len: nat,
                                        memory: seq<byte>, after: seq<byte>, buffer: nat)
    requires ReadResult(status, true, bytes, size, offset, len, memory, after, buffer)
    requires !Fits(offset, len, size) && buffer + HeadLength(offset, size) <= |memory|
    ensures var head := HeadLength(offset, size);
            && len < head && |after| == |memory| && offset + head <= |bytes|
            && after[buffer + len..buffer + head] == bytes[offset + len..offset + head]
  {
    var head := HeadLength(offset, size);
    FitsMeansAhead(offset, len, size);
    var n :| n >= head && FilledFrom(memory, after, buffer, bytes, offset, n);
    FilledMeans(memory, after, buffer, bytes, offset, n, len, head);
  }

  lemma {:induction false} FilledMeans(memory: seq<byte>, after: seq<byte>, to: nat, bytes: seq<byte>, from: nat,
                                       n: nat, i: nat, k: nat)
    requires FilledFrom(memory, after, to, bytes, from, n) && i < k <= n
    ensures |after| == |memory| && to + n <= |memory| && from + n <= |bytes|
    ensures after[to + i..to + k] == bytes[from + i..from + k]
  {
    var filled := bytes[from..from + n];
    assert after == memory[..to] + filled + memory[to + n..];
    Middle(memory[..to], filled, memory[to + n..]);
    Slice(after, to, n, i, k);
    Slice(bytes, from, n, i, k);
  }

  lemma {:induction false} Slice(s: seq<byte>, from: nat, n: nat, i: nat, k: nat)
    requires from + n <= |s| && i <= k <= n
    ensures s[from..from + n][i..k] == s[from + i..from + k]
  {
    var t := s[from..from + n];
    assert s == (s[..from] + t[..i]) + t[i..k] + (t[k..] + s[from + n..]);
    Middle(s[..from] + t[..i], t[i..k], t[k..] + s[from + n..]);
  }

  lemma {:induction false} Middle(a: seq<byte>, b: seq<byte>, c: seq<byte>)
    ensures (a + b + c)[|a|..|a| + |b|] == b
  {
    assert (a + b + c)[|a|..] == b + c;
  }

  /** The same of a write: it is the caller's memory that is overwritten. */
  lemma {:induction false} WriteOverruns(status: Status, bytes: seq<byte>, bytes': seq<byte>, size: nat, offset: nat,
                                         len: nat, memory: seq<byte>, after: seq<byte>, buffer: nat)
    requires WriteResult(status, true, bytes, bytes', size, offset, len, memory, after, buffer)
    requires !Fits(offset, len, size) && buffer + HeadLength(offset, size) <= |memory|
    ensures var head := HeadLength(offset, size);
            && len < head && |after| == |memory| && offset + head <= |bytes|
            && after[buffer + len..buffer + head] == bytes[offset + len..offset + head]
  {
    var head := HeadLength(offset, size);
    FitsMeansAhead(offset, len, size);
    FilledMeans(memory, after, buffer, bytes, offset, head, len, head);
  }

  /**
   One byte asked for from a block of four, with four bytes of memory: once the block is fetched,
   two more bytes behind the caller's one are overwritten, and no other result is possible.
   */
  lemma {:induction false} ReadInsideBlockOverruns(after: seq<byte>)
    ensures !Fits(1, 1, 4)
    ensures ReadResult(Failure, true, [5, 6, 7, 8], 4, 1, 1, [0, 0, 0, 0], after, 0) <==> after == [6, 7, 8, 0]
    ensures !SameOutside([0, 0, 0, 0], [6, 7, 8, 0], 0, 1)
  {
    var before, bytes, whole: seq<byte> := [0, 0, 0, 0], [5, 6, 7, 8], [6, 7, 8, 0];
    assert HeadLength(1, 4) == 3;
    assert Replaced(before, 0, bytes, 1, 3) == whole;
    assert FilledFrom(before, whole, 0, bytes, 1, 3);
    assert before[1] != whole[1];
  }

  lemma {:induction false} CommonEnd(p: seq<byte>, q: seq<byte>, rest: seq<byte>)
    requires |p| == |q|
    ensures p + rest == q + rest <==> p == q
  {
    assert (p + rest)[..|p|] == p && (q + rest)[..|q|] == q;
  }

  /** A read of the range that an aligned write has filled gives back what was written. */
  lemma {:induction false} WrittenIsRead(bytes: seq<byte>, bytes': seq<byte>, size: nat, offset: nat, len: nat,
                                         memory: seq<byte>, after: seq<byte>, buffer: nat,
                                         memory': seq<byte>, after': seq<byte>, buffer': nat)
    requires WriteResult(Success, true, bytes, bytes', size, offset, len, memory, after, buffer)
    requires offset % size == 0 && buffer + len <= |memory| && buffer' + len <= |memory'|
    requires Countable(offset, len, size)
    requires ReadResult(Success, true, bytes', size, offset, len, memory', after', buffer')
    ensures |after'| == |memory'| && after'[buffer'..buffer' + len] == memory[buffer..buffer + len]
  {
    if len > 0 {
      WriteExact(bytes, bytes', size, offset, len, memory, after, buffer);
      assert after'[buffer'..buffer' + len] == bytes'[offset..offset + len];
    }
  }
}
