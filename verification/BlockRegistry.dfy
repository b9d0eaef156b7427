/**
 The registry of block device classes and instances (kernel/src/drivers/blockdev.c), and the
 reads and writes that go through it.  Between calls no instance is referenced and the minors
 of a class are distinct.
 */
module BlockRegistry {
  import opened Words
  import opened Disk
  import opened BlockDevice

  const NUM_BLOCKDEV_CLASSES: nat := 2

  /** blockdev_read on this instance: the two states are those before and after it. */
  twostate predicate WasRead(i: Instance, heap: Allocator, status: Status, fetched: bool, offset: nat, len: nat,
                             memory: array<byte>, buffer: nat)
    reads i, i.disk, heap, memory
  {
    && ReadResult(status, fetched, i.disk.bytes, i.blockSize, offset, len, old(memory[..]), memory[..], buffer)
    && Counted(i, heap, status, fetched, offset, memory, buffer)
  }

  /** blockdev_write on this instance. */
  twostate predicate WasWritten(i: Instance, heap: Allocator, status: Status, fetched: bool, offset: nat, len: nat,
                                memory: array<byte>, buffer: nat)
    reads i, i.disk, heap, memory
  {
    && WriteResult(status, fetched, old(i.disk.bytes), i.disk.bytes, i.blockSize, offset, len,
                   old(memory[..]), memory[..], buffer)
    && Counted(i, heap, status, fetched, offset, memory, buffer)
  }

  /**
   A failure is one refusal, of malloc or of the disk.  Where the block of the head was fetched, and
   memory ends before the head, both were asked.
   */
  twostate predicate Counted(i: Instance, heap: Allocator, status: Status, fetched: bool, offset: nat,
                             memory: array<byte>, buffer: nat)
    reads i, i.disk, heap
  {
    && i.blockSize > 0
    && Refusals(heap, i.disk) == old(Refusals(heap, i.disk)) + (if status == Failure then 1 else 0)
    && (fetched && buffer + HeadLength(offset, i.blockSize) > memory.Length ==>
          heap.asked > old(heap.asked) && i.disk.asked > old(i.disk.asked))
  }

  class BlockClass {
    const major: nat
    var instances: seq<Instance>

    constructor (major: nat)
      ensures this.major == major && instances == []
    {
      this.major := major;
      instances := [];
    }

    ghost function Members(): set<Instance>
      reads this
    {
      set i <- instances :: i
    }

    ghost function Disks(): set<Disk>
      reads this
    {
      set i <- instances :: i.disk
    }

    /** What holds between calls: distinct minors, and no instance is referenced. */
    ghost predicate Valid()
      reads this, Members()
    {
      && (forall j, k | 0 <= j < k < |instances| :: instances[j].minor != instances[k].minor)
      && (forall i <- instances :: i.major == major && i.Valid() && i.refCount == 0)
    }

    ghost predicate Has(minor: nat)
      reads this
    {
      exists i <- instances :: i.minor == minor
    }

    /** The disk of the instance with this minor. */
    ghost predicate Serves(minor: nat, disk: Disk)
      reads this
    {
      exists i <- instances :: i.minor == minor && i.disk == disk
    }

    /** get_blockdev_instance: the instance with this minor, referenced once more. */
    method GetInstance(minor: nat) returns (r: Instance?)
      modifies Members()`refCount
      ensures r != null <==> Has(minor)
      ensures r != null ==> r in instances && r.minor == minor && r.refCount == old(r.refCount) + 1
      ensures forall i <- instances | i != r :: i.refCount == old(i.refCount)
    {
      for k := 0 to |instances|
        invariant forall j | 0 <= j < k :: instances[j].minor != minor
        invariant forall i <- instances :: i.refCount == old(i.refCount)
      {
        if instances[k].minor == minor {
          assert instances[k] in instances;
          instances[k].refCount := instances[k].refCount + 1;
          return instances[k];
        }
      }
      return null;
    }

    /** list_find: where the instance stands, or the length of the list. */
    method FindNode(instance: Instance) returns (k: nat)
      ensures k <= |instances| && (k < |instances| <==> instance in instances)
      ensures k < |instances| ==> instances[k] == instance
    {
      k := 0;
      while k < |instances| && instances[k] != instance
        invariant k <= |instances| && forall j | 0 <= j < k :: instances[j] != instance
      {
        k := k + 1;
      }
    }

    /** The instance stood in the list of the class and has been taken out. */
    ghost predicate Without(before: seq<Instance>, instance: Instance)
      reads this
    {
      exists k | 0 <= k < |before| :: before[k] == instance && instances == before[..k] + before[k + 1..]
    }

    /** A new instance stands at the end of the list. */
    ghost predicate With(before: seq<Instance>, minor: nat, blockSize: nat, capacity: nat, disk: Disk)
      reads this
    {
      && |instances| == |before| + 1 && instances[..|before|] == before
      && var i := instances[|before|];
         i.minor == minor && i.blockSize == blockSize && i.capacity == capacity && i.disk == disk
    }

    /**
     The part of reg_blockdev_instance that concerns the class.  A new minor asks malloc twice: for
     the instance, whose refusal is a failure, and for its list node, whose refusal goes unnoticed.
     */
    method Add(heap: Allocator, minor: nat, blockSize: nat, capacity: nat, disk: Disk) returns (status: Status)
      requires Valid() && disk.Valid() && disk.blockSize == blockSize
      modifies this, Members(), heap
      ensures Valid() && fresh(Members() - old(Members()))
      ensures status in {Success, Failure}
      ensures old(Has(minor)) ==>
                status == Success && instances == old(instances)
                && heap.asked == old(heap.asked) && heap.refused == old(heap.refused)
      ensures !old(Has(minor)) ==>
                && heap.asked == old(heap.asked) + (if status == Success then 2 else 1)
                && (status == Failure ==> heap.refused == old(heap.refused) + 1 && instances == old(instances))
                && (status == Success ==>
                      if heap.refused == old(heap.refused) then With(old(instances), minor, blockSize, capacity, disk)
                      else heap.refused == old(heap.refused) + 1 && instances == old(instances))
    {
      var instance := GetInstance(minor);
      if instance != null {
        instance.Release();
        return Success;
      }
      var available := heap.Grant();
      if !available {
        return Failure;
      }
      instance := new Instance(major, minor, blockSize, capacity, disk);
      var inserted := heap.Grant();
      if inserted {
        instances := instances + [instance];
      }
      return Success;
    }

    /** The second half of unreg_blockdev_instance, for any instance that it holds a reference to. */
    method Detach(instance: Instance) returns (status: Status)
      requires instance.refCount > 0
      modifies this`instances, instance`refCount
      ensures status ==
              if old(instance.refCount) > 1 then Busy
              else if instance in old(instances) then Success
              else Inconsistent
      ensures instance.refCount == old(instance.refCount) - if status == Busy then 1 else 0
      ensures if status == Success then Without(old(instances), instance) else instances == old(instances)
    {
      if instance.refCount > 1 {
        instance.Release();
        return Busy;
      }
      var k := FindNode(instance);
      if k == |instances| {
        return Inconsistent;
      }
      instances := instances[..k] + instances[k + 1..];
      return Success;
    }

    /** The part of unreg_blockdev_instance that concerns the class: never Busy, never Inconsistent. */
    method Remove(minor: nat) returns (status: Status)
      requires Valid()
      modifies this, Members()
      ensures Valid()
      ensures status == (if old(Has(minor)) then Success else Failure)
      ensures status == Success ==> exists i <- old(instances) :: i.minor == minor && Without(old(instances), i)
      ensures status == Failure ==> instances == old(instances)
      ensures !Has(minor) && forall i <- instances :: i in old(instances)
    {
      var instance := GetInstance(minor);
      if instance == null {
        return Failure;
      }
      status := Detach(instance);
    }

    /**
     blockdev_read on this class; `fetched` tells whether the block of the head was fetched.  Where
     that was all, because memory ends, malloc and the disk have both been asked.
     */
    method Read(heap: Allocator, minor: nat, offset: nat, len: nat, memory: array<byte>, buffer: nat)
      returns (status: Status, ghost fetched: bool)
      requires Valid() && buffer + len <= memory.Length
      modifies Members()`refCount, Disks()`asked, Disks()`refused, heap, memory
      ensures status in {Success, Failure, OutOfBounds}
      ensures status != OutOfBounds ==> Valid()
      ensures !Has(minor) ==> status == Failure && memory[..] == old(memory[..])
      ensures forall i <- instances | i.minor == minor ::
                WasRead(i, heap, status, fetched, offset, len, memory, buffer)
    {
      ghost var before := memory[..];
      var instance := GetInstance(minor);
      if instance == null {
        status, fetched := Failure, false;
        return;
      }
      ghost var moved;
      status, moved, fetched := ReadFrom(heap, instance, offset, len, memory, buffer);
      ReadMeans(status, fetched, instance.disk.bytes, instance.blockSize, offset, len,
                before, memory[..], buffer, moved);
    }

    /** blockdev_write on this class: no other disk of the class changes. */
    method Write(heap: Allocator, minor: nat, offset: nat, len: nat, memory: array<byte>, buffer: nat)
      returns (status: Status, ghost fetched: bool)
      requires Valid() && buffer + len <= memory.Length
      modifies Members()`refCount, Disks(), heap, memory
      ensures status in {Success, Failure, OutOfBounds}
      ensures status != OutOfBounds ==> Valid()
      ensures !Has(minor) ==> status == Failure && memory[..] == old(memory[..])
      ensures forall i <- instances | i.minor == minor ::
                WasWritten(i, heap, status, fetched, offset, len, memory, buffer)
      ensures forall d <- Disks() | !Serves(minor, d) :: d.bytes == old(d.bytes)
    {
      ghost var before := memory[..];
      var instance := GetInstance(minor);
      if instance == null {
        status, fetched := Failure, false;
        return;
      }
      ghost var bytes := instance.disk.bytes;
      ghost var moved;
      status, moved, fetched := WriteFrom(heap, instance, offset, len, memory, buffer);
      WriteMeans(status, fetched, bytes, instance.disk.bytes, instance.blockSize, offset, len,
                 before, memory[..], buffer, moved);
    }
  }

  class Registry {
    var classes: map<nat, BlockClass>

    constructor ()
      ensures Valid() && classes == map[]
    {
      classes := map[];
    }

    ghost function Instances(): set<Instance>
      reads this, classes.Values
    {
      set c <- classes.Values, i <- c.instances :: i
    }

    ghost function Disks(): set<Disk>
      reads this, classes.Values
    {
      set i <- Instances() :: i.disk
    }

    /** What holds between calls. */
    ghost predicate Valid()
      reads this, classes.Values, Instances()
    {
      && (forall major <- classes :: major < NUM_BLOCKDEV_CLASSES && classes[major].major == major)
      && (forall c <- classes.Values :: c.Valid())
      && (forall c <- classes.Values, d <- classes.Values | c != d :: c.major != d.major)
    }

    /** Classes have no instance in common. */
    lemma {:induction false} Apart(c: BlockClass)
      requires Valid() && c in classes.Values
      ensures forall d <- classes.Values | d != c :: d.Members() !! c.Members()
    {
      forall d | d in classes.Values && d != c
        ensures d.Members() !! c.Members()
      {
        assert forall i <- d.Members() :: i.major == d.major;
      }
    }

    /** A call that works on one class and leaves it valid leaves the registry valid. */
    twostate lemma OthersStay(c: BlockClass)
      requires old(Valid()) && classes == old(classes) && c in classes.Values
      requires forall d <- classes.Values | d != c :: unchanged(d) && unchanged(d.Members())
      ensures c.Valid() ==> Valid()
    {
    }

    /** The instance a call names is registered. */
    ghost predicate Has(major: nat, minor: nat)
      reads this, classes.Values
    {
      major in classes && classes[major].Has(minor)
    }

    /** The disk of the instance a call names. */
    ghost predicate Serves(major: nat, minor: nat, disk: Disk)
      reads this, classes.Values
    {
      major in classes && classes[major].Serves(minor, disk)
    }

    /** blockdev_classes[major]: the check before it lets one index too many pass. */
    function GetClass(major: nat): (r: (Status, BlockClass?))
      reads this, classes.Values
      ensures r.0 == OutOfBounds <==> major == 2
      ensures r.0 == Success <==> major < 2 && major in classes
      ensures r.0 == Success ==> r.1 != null && r.1 in classes.Values && major in classes && r.1 == classes[major]
      ensures r.0 == Success ==> r.1.Members() <= Instances() && r.1.Disks() <= Disks()
    {
      if major > NUM_BLOCKDEV_CLASSES then (Failure, null)
      else if major == NUM_BLOCKDEV_CLASSES then (OutOfBounds, null)
      else if major in classes then (Success, classes[major])
      else (Failure, null)
    }

    /** reg_blockdev_class: it fails on a bad or a registered number, or if malloc refuses. */
    method RegisterClass(heap: Allocator, major: nat) returns (status: Status)
      requires Valid()
      modifies this, heap
      ensures Valid()
      ensures major > NUM_BLOCKDEV_CLASSES || major in old(classes) ==>
                status == Failure && heap.asked == old(heap.asked) && heap.refused == old(heap.refused)
      ensures major == NUM_BLOCKDEV_CLASSES <==> status == OutOfBounds
      ensures status in {Success, Failure, OutOfBounds}
      ensures major < NUM_BLOCKDEV_CLASSES && major !in old(classes) ==>
                && heap.asked == old(heap.asked) + 1
                && status == (if heap.refused == old(heap.refused) then Success else Failure)
      ensures status == Success ==>
                && major in classes && fresh(classes[major]) && classes[major].instances == []
                && classes == old(classes)[major := classes[major]]
      ensures status != Success ==> classes == old(classes)
      ensures fresh(classes.Values - old(classes.Values))
      ensures Instances() == old(Instances()) && Disks() == old(Disks())
    {
      if major > NUM_BLOCKDEV_CLASSES {
        return Failure;
      }
      if major == NUM_BLOCKDEV_CLASSES {
        return OutOfBounds;
      }
      if major in classes {
        return Failure;
      }
      var available := heap.Grant();
      if !available {
        return Failure;
      }
      var c := new BlockClass(major);
      Insert(c);
      return Success;
    }

    /** A new class without instances takes its place in the table. */
    method Insert(c: BlockClass)
      requires Valid() && c.major < NUM_BLOCKDEV_CLASSES && c.major !in classes
      requires c !in classes.Values && c.instances == []
      modifies this
      ensures Valid() && classes == old(classes)[c.major := c]
      ensures classes.Values == old(classes.Values) + {c}
      ensures Instances() == old(Instances()) && Disks() == old(Disks())
    {
      classes := classes[c.major := c];
      forall k | k in old(classes)
        ensures old(classes)[k] in classes.Values
      {
        assert classes[k] == old(classes)[k];
      }
      assert classes[c.major] == c;
    }

    /**
     reg_blockdev_instance.  With good arguments and a registered class, a minor that exists
     counts as registered.  A new one fails exactly if malloc refuses the instance; otherwise the
     call succeeds, and the instance is registered exactly if malloc grants the list node as well,
     as the result of list_insert is not checked.
     */
    method RegisterInstance(heap: Allocator, major: nat, minor: nat, blockSize: nat, capacity: nat, disk: Disk)
      returns (status: Status)
      requires Valid() && (blockSize > 0 ==> disk.Valid() && disk.blockSize == blockSize)
      modifies classes.Values, Instances(), heap
      ensures Valid() && classes == old(classes)
      ensures fresh(Instances() - old(Instances())) && Disks() <= old(Disks()) + {disk}
      ensures var bad := major > NUM_BLOCKDEV_CLASSES || blockSize == 0 || capacity == 0;
              && status in {Success, Failure, OutOfBounds}
              && (status == OutOfBounds <==> major == NUM_BLOCKDEV_CLASSES && !bad)
              && (bad || major !in classes || old(Has(major, minor)) ==>
                    && heap.asked == old(heap.asked) && heap.refused == old(heap.refused)
                    && (status == Success <==> !bad && old(Has(major, minor)))
                    && forall c <- classes.Values :: c.instances == old(c.instances))
              && (!bad && major in classes && !old(Has(major, minor)) ==>
                    && status in {Success, Failure}
                    && heap.asked == old(heap.asked) + (if status == Success then 2 else 1)
                    && (status == Failure ==> heap.refused == old(heap.refused) + 1)
                    && (if status == Success && heap.refused == old(heap.refused)
                        then classes[major].With(old(classes[major].instances), minor, blockSize, capacity, disk)
                        else !Has(major, minor) && classes[major].instances == old(classes[major].instances))
                    && forall c <- classes.Values | c.major != major :: c.instances == old(c.instances))
    {
      if major > NUM_BLOCKDEV_CLASSES || blockSize == 0 || capacity == 0 {
        return Failure;
      }
      var (found, c) := GetClass(major);
      status := found;
      if status == Success {
        status := AddTo(heap, c, minor, blockSize, capacity, disk);
      }
    }

    /** Its second half, for the class that it has found. */
    method AddTo(heap: Allocator, c: BlockClass, minor: nat, blockSize: nat, capacity: nat, disk: Disk)
      returns (status: Status)
      requires Valid() && c in classes.Values && disk.Valid() && disk.blockSize == blockSize
      modifies c, c.Members(), heap
      ensures Valid() && fresh(Instances() - old(Instances())) && Disks() <= old(Disks()) + {disk}
      ensures status in {Success, Failure}
      ensures old(c.Has(minor)) ==>
                status == Success && c.instances == old(c.instances)
                && heap.asked == old(heap.asked) && heap.refused == old(heap.refused)
      ensures !old(c.Has(minor)) ==>
                && heap.asked == old(heap.asked) + (if status == Success then 2 else 1)
                && (status == Failure ==> heap.refused == old(heap.refused) + 1)
                && (if status == Success && heap.refused == old(heap.refused)
                    then c.With(old(c.instances), minor, blockSize, capacity, disk)
                    else !c.Has(minor) && c.instances == old(c.instances))
    {
      Apart(c);
      status := c.Add(heap, minor, blockSize, capacity, disk);
      OthersStay(c);
    }

    /** unreg_blockdev_instance: only the instance that it names goes, and only from its class. */
    method UnregisterInstance(major: nat, minor: nat) returns (status: Status)
      requires Valid()
      modifies classes.Values, Instances()
      ensures Valid() && classes == old(classes)
      ensures Instances() <= old(Instances()) && Disks() <= old(Disks())
      ensures major == NUM_BLOCKDEV_CLASSES <==> status == OutOfBounds
      ensures status == Success <==> old(Has(major, minor))
      ensures status in {Success, Failure, OutOfBounds}
      ensures !Has(major, minor)
      ensures status == Success ==>
                exists i <- old(classes[major].instances) ::
                  i.minor == minor && classes[major].Without(old(classes[major].instances), i)
      ensures forall c <- classes.Values | status != Success || c.major != major :: c.instances == old(c.instances)
    {
      var (found, c) := GetClass(major);
      status := found;
      if status == Success {
        status := RemoveFrom(c, minor);
      }
    }

    /** Its second half, for the class that it has found. */
    method RemoveFrom(c: BlockClass, minor: nat) returns (status: Status)
      requires Valid() && c in classes.Values
      modifies c, c.Members()
      ensures Valid() && Instances() <= old(Instances()) && Disks() <= old(Disks())
      ensures status == (if old(c.Has(minor)) then Success else Failure) && !c.Has(minor)
      ensures if status == Success
              then exists i <- old(c.instances) :: i.minor == minor && c.Without(old(c.instances), i)
              else c.instances == old(c.instances)
    {
      Apart(c);
      status := c.Remove(minor);
      OthersStay(c);
    }

    /**
     blockdev_read.  Whatever the disk and the allocator do, the call leaves no reference behind,
     and what it has read is that of ReadResult; no disk changes.
     */
    method Read(heap: Allocator, major: nat, minor: nat, offset: nat, len: nat, memory: array<byte>, buffer: nat)
      returns (status: Status, ghost fetched: bool)
      requires Valid() && buffer + len <= memory.Length <= TWO63 && offset < TWO32
      modifies Instances()`refCount, Disks()`asked, Disks()`refused, heap, memory
      ensures status in {Success, Failure, OutOfBounds}
      ensures status != OutOfBounds ==> Valid()
      ensures major == NUM_BLOCKDEV_CLASSES ==> status == OutOfBounds
      ensures !Has(major, minor) ==>
                status == (if major == NUM_BLOCKDEV_CLASSES then OutOfBounds else Failure)
                && memory[..] == old(memory[..])
      ensures Has(major, minor) ==>
                forall i <- classes[major].instances | i.minor == minor ::
                  WasRead(i, heap, status, fetched, offset, len, memory, buffer)
    {
      var (found, c) := GetClass(major);
      status, fetched := found, false;
      if status == Success {
        status, fetched := ReadIn(c, heap, minor, offset, len, memory, buffer);
      }
    }

    /** Its second half, for the class that it has found. */
    method ReadIn(c: BlockClass, heap: Allocator, minor: nat, offset: nat, len: nat, memory: array<byte>, buffer: nat)
      returns (status: Status, ghost fetched: bool)
      requires Valid() && c in classes.Values && buffer + len <= memory.Length
      modifies c.Members()`refCount, c.Disks()`asked, c.Disks()`refused, heap, memory
      ensures status in {Success, Failure, OutOfBounds}
      ensures status != OutOfBounds ==> Valid()
      ensures !c.Has(minor) ==> status == Failure && memory[..] == old(memory[..])
      ensures forall i <- c.instances | i.minor == minor ::
                WasRead(i, heap, status, fetched, offset, len, memory, buffer)
    {
      Apart(c);
      status, fetched := c.Read(heap, minor, offset, len, memory, buffer);
      OthersStay(c);
    }

    /** blockdev_write, likewise: every disk but that of the instance it names keeps its bytes. */
    method Write(heap: Allocator, major: nat, minor: nat, offset: nat, len: nat, memory: array<byte>, buffer: nat)
      returns (status: Status, ghost fetched: bool)
      requires Valid() && buffer + len <= memory.Length <= TWO63 && offset < TWO32
      modifies Instances()`refCount, Disks(), heap, memory
      ensures status in {Success, Failure, OutOfBounds}
      ensures status != OutOfBounds ==> Valid()
      ensures major == NUM_BLOCKDEV_CLASSES ==> status == OutOfBounds
      ensures !Has(major, minor) ==>
                status == (if major == NUM_BLOCKDEV_CLASSES then OutOfBounds else Failure)
                && memory[..] == old(memory[..])
      ensures Has(major, minor) ==>
                forall i <- classes[major].instances | i.minor == minor ::
                  WasWritten(i, heap, status, fetched, offset, len, memory, buffer)
      ensures forall d <- Disks() | !Serves(major, minor, d) :: d.bytes == old(d.bytes)
    {
      var (found, c) := GetClass(major);
      status, fetched := found, false;
      if status == Success {
        status, fetched := WriteIn(c, heap, minor, offset, len, memory, buffer);
      }
    }

    /** Its second half, for the class that it has found. */
    method WriteIn(c: BlockClass, heap: Allocator, minor: nat, offset: nat, len: nat, memory: array<byte>, buffer: nat)
      returns (status: Status, ghost fetched: bool)
      requires Valid() && c in classes.Values && buffer + len <= memory.Length
      modifies c.Members()`refCount, c.Disks(), heap, memory
      ensures status in {Success, Failure, OutOfBounds}
      ensures status != OutOfBounds ==> Valid()
      ensures !c.Has(minor) ==> status == Failure && memory[..] == old(memory[..])
      ensures forall i <- c.instances | i.minor == minor ::
                WasWritten(i, heap, status, fetched, offset, len, memory, buffer)
      ensures forall d <- c.Disks() | !c.Serves(minor, d) :: d.bytes == old(d.bytes)
    {
      Apart(c);
      status, fetched := c.Write(heap, minor, offset, len, memory, buffer);
      OthersStay(c);
    }
  }

  /** A call of the layer with the arguments a caller may choose. */
  datatype Command =
    | AddClass(major: nat)
    | AddInstance(major: nat, minor: nat, blockSize: nat, capacity: nat, disk: Disk)
    | RemoveInstance(major: nat, minor: nat)
    | ReadBytes(major: nat, minor: nat, offset: nat, len: nat, buffer: nat)
    | WriteBytes(major: nat, minor: nat, offset: nat, len: nat, buffer: nat)

  predicate Callable(c: Command, memory: nat) {
    match c
    case AddInstance(_, _, blockSize, _, disk) => blockSize > 0 ==> disk.Valid() && disk.blockSize == blockSize
    case ReadBytes(_, _, offset, len, buffer) => offset < TWO32 && buffer + len <= memory <= TWO63
    case WriteBytes(_, _, offset, len, buffer) => offset < TWO32 && buffer + len <= memory <= TWO63
    case _ => true
  }

  function DisksOf(commands: seq<Command>): set<Disk> {
    set c <- commands | c.AddInstance? :: c.disk
  }

  /**
   Any run of calls, with disks and an allocator that may fail at any of them, up to the first
   step out of bounds: between the calls minors stay distinct and no instance is referenced, no
   device is ever busy, and the registry is never found inconsistent.
   */
  method Run(heap: Allocator, registry: Registry, commands: seq<Command>, memory: array<byte>)
    returns (statuses: seq<Status>)
    requires registry.Valid() && forall c <- commands :: Callable(c, memory.Length)
    modifies registry, registry.classes.Values, registry.Instances(), registry.Disks(), heap, memory, DisksOf(commands)
    ensures |statuses| <= |commands| && forall s <- statuses :: s in {Success, Failure, OutOfBounds}
    ensures OutOfBounds in statuses || (registry.Valid() && |statuses| == |commands|)
  {
    statuses := [];
    for k := 0 to |commands|
      invariant registry.Valid() && |statuses| == k && forall s <- statuses :: s in {Success, Failure}
      invariant fresh(registry.classes.Values - old(registry.classes.Values))
      invariant fresh(registry.Instances() - old(registry.Instances()))
      invariant registry.Disks() <= old(registry.Disks()) + DisksOf(commands)
    {
      var status := Step(heap, registry, commands[k], memory);
      statuses := statuses + [status];
      if status == OutOfBounds {
        return;
      }
    }
  }

  method Step(heap: Allocator, registry: Registry, c: Command, memory: array<byte>) returns (status: Status)
    requires registry.Valid() && Callable(c, memory.Length)
    modifies registry, registry.classes.Values, registry.Instances(), registry.Disks(), heap, memory
    ensures status in {Success, Failure, OutOfBounds}
    ensures status != OutOfBounds ==> registry.Valid()
    ensures fresh(registry.classes.Values - old(registry.classes.Values))
    ensures fresh(registry.Instances() - old(registry.Instances()))
    ensures registry.Disks() <= old(registry.Disks()) + DisksOf([c])
  {
    match c
    case AddClass(major) => status := registry.RegisterClass(heap, major);
    case AddInstance(_, _, _, _, _) => status := Plug(heap, registry, c);
    case RemoveInstance(major, minor) => status := registry.UnregisterInstance(major, minor);
    case _ => status := Transfer(heap, registry, c, memory);
  }

  method Plug(heap: Allocator, registry: Registry, c: Command) returns (status: Status)
    requires registry.Valid() && c.AddInstance? && Callable(c, 0)
    modifies registry.classes.Values, registry.Instances(), heap
    ensures status in {Success, Failure, OutOfBounds} && registry.Valid()
    ensures fresh(registry.Instances() - old(registry.Instances()))
    ensures registry.Disks() <= old(registry.Disks()) + DisksOf([c])
  {
    status := registry.RegisterInstance(heap, c.major, c.minor, c.blockSize, c.capacity, c.disk);
    assert c in [c];
    assert c.disk in DisksOf([c]);
  }

  method Transfer(heap: Allocator, registry: Registry, c: Command, memory: array<byte>) returns (status: Status)
    requires registry.Valid() && Callable(c, memory.Length) && (c.ReadBytes? || c.WriteBytes?)
    modifies registry.Instances()`refCount, registry.Disks(), heap, memory
    ensures status in {Success, Failure, OutOfBounds}
    ensures status != OutOfBounds ==> registry.Valid()
  {
    match c
    case ReadBytes(major, minor, offset, len, buffer) =>
      ghost var fetched;
      status, fetched := registry.Read(heap, major, minor, offset, len, memory, buffer);
    case WriteBytes(major, minor, offset, len, buffer) =>
      ghost var fetched;
      status, fetched := registry.Write(heap, major, minor, offset, len, memory, buffer);
  }
}
