/**
 Cylinder-head-sector addressing (kernel/src/drivers/ide.c): the capacity guard, the cap on the
 number of blocks, and the registers that a block number is spread over.
 */
module Chs {
  import opened Words

  /** What the identify command reports, in 16-bit words. */
  datatype Geometry = Geometry(cylinders: nat, heads: nat, sectors: nat)

  /** The sectors of one cylinder. */
  function Track(g: Geometry): nat {
    Product(g.heads, g.sectors)
  }

  /** All sectors, before the product is cut to 32 bits. */
  function Sectors(g: Geometry): nat {
    Product(g.cylinders, Track(g))
  }

  /** device->capacity. */
  function Capacity(g: Geometry): nat {
    Sectors(g) % 0x1_0000_0000
  }

  const MAX_NBLOCKS: nat := 256

  /** How many blocks a request is cut to; None: it is refused.  The sum has 64 bits. */
  function Granted(g: Geometry, block: u64, nblocks: u64): Option<nat> {
    var n := if nblocks >= MAX_NBLOCKS then MAX_NBLOCKS else nblocks;
    if nblocks == 0 || Wrap(block + n) > Capacity(g) then None else Some(n)
  }

  /** Where a block lies; sectors count from one. */
  datatype Place = Place(cylinder: nat, head: nat, sector: nat)

  function PlaceOf(g: Geometry, block: nat): Place
    requires Track(g) > 0
  {
    TrackHasSectors(g);
    var rest := block % Track(g);
    Place(block / Track(g), rest / g.sectors, rest % g.sectors + 1)
  }

  lemma {:induction false} TrackHasSectors(g: Geometry)
    requires Track(g) > 0
    ensures g.sectors > 0 && g.heads > 0
  {
    ProductValue(g.heads, g.sectors);
  }

  /** The registers: sector, the two bytes of the cylinder, and drive/head. */
  datatype Registers = Registers(sector: byte, low: byte, high: byte, driveHead: byte)

  /** What is written to them; the local variables sc, cl, ch and hd have eight bits. */
  function Pack(position: nat, place: Place): Registers
    requires position < 2
  {
    Registers(place.sector % 256, place.cylinder % 256, (place.cylinder / 256) % 256,
              DriveHead(position, place.head % 256))
  }

  /** hd | 0xA0 | (position << 4). */
  function DriveHead(position: nat, head: byte): byte
    requires position < 2
  {
    Pow2Values();
    BitsBound(OrGate, head, 0xA0 + 16 * position, 8);
    Bits(OrGate, head, 0xA0 + 16 * position)
  }

  /** The place that the registers select. */
  function Unpack(r: Registers): Place {
    Place(r.low + 256 * r.high, r.driveHead % 16, r.sector)
  }

  /** The number of a place, counting sectors first, then heads, then cylinders. */
  function BlockOf(g: Geometry, place: Place): int {
    Product(place.cylinder, Track(g)) + Product(place.head, g.sectors) + place.sector - 1
  }

  predicate OnDisk(g: Geometry, place: Place) {
    place.cylinder < g.cylinders && place.head < g.heads && 1 <= place.sector <= g.sectors
  }

  /////////////////////////////////////////////////////////////////////////////
  // Products
  /////////////////////////////////////////////////////////////////////////////

  lemma {:induction false} ProductGrows(a: nat, b: nat, c: nat)
    requires a < b
    ensures Product(a, c) + c <= Product(b, c)
    decreases c
  {
    if c > 0 {
      ProductGrows(a, b, c - 1);
    }
  }

  /** Quotient and remainder of x by m, from their defining equation. */
  lemma {:induction false} DivMod(x: nat, m: nat, q: nat, r: nat)
    requires r < m && x == Product(q, m) + r
    ensures x / m == q && x % m == r
  {
    ProductValue(q, m);
    ModUnique(x, m, q, r);
  }

  lemma {:induction false} DivModOf(x: nat, m: nat, n: nat)
    requires m > 0 && x < Product(n, m)
    ensures x == Product(x / m, m) + x % m && x / m < n
  {
    ProductValue(x / m, m);
    if x / m >= n {
      if n < x / m {
        ProductGrows(n, x / m, m);
      }
    }
  }

  /////////////////////////////////////////////////////////////////////////////
  // Blocks and places
  /////////////////////////////////////////////////////////////////////////////

  /** A geometry of 16-bit words by which a block number can be divided. */
  predicate Sized(g: Geometry) {
    0 < Track(g) && g.cylinders < 0x1_0000 && g.heads < 0x1_0000 && g.sectors < 0x1_0000
  }

  /** The capacity may have been cut, and does not exceed the disk. */
  lemma {:induction false} CapacityWithin(g: Geometry)
    ensures Capacity(g) <= Sectors(g)
  {
  }

  lemma {:induction false} SectorsBound(g: Geometry)
    requires Sized(g)
    ensures Sectors(g) < 0x1_0000_0000_0000
  {
    ProductValue(0x1_0000, 0x1_0000);
    ProductValue(0x1_0000, 0x1_0000_0000);
    ProductBound(g.heads, g.sectors, 0x1_0000, 0x1_0000);
    ProductBound(g.cylinders, Track(g), 0x1_0000, 0x1_0000_0000);
  }

  lemma {:induction false} ProductBound(a: nat, b: nat, a': nat, b': nat)
    requires a < a' && b < b'
    ensures Product(a, b) < Product(a', b')
  {
    ProductValue(a, b);
    ProductValue(a', b');
    Larger(a, b, a', b');
  }

  lemma {:induction false} Larger(a: nat, b: nat, a': nat, b': nat)
    requires a < a' && b < b'
    ensures a * b < a' * b'
  {
    assert a * b <= a * b' < a' * b';
  }

  /** Block numbers and places correspond: each block of the disk has its place on the disk ... */
  lemma {:induction false} PlaceOfBlock(g: Geometry, block: nat)
    requires Sized(g) && block < Sectors(g)
    ensures OnDisk(g, PlaceOf(g, block)) && BlockOf(g, PlaceOf(g, block)) == block
  {
    TrackHasSectors(g);
    DivModOf(block, Track(g), g.cylinders);
    DivModOf(block % Track(g), g.sectors, g.heads);
  }

  /** ... and each place the number of a block that lies there. */
  lemma {:induction false} BlockOfPlace(g: Geometry, place: Place)
    requires Sized(g) && OnDisk(g, place)
    ensures 0 <= BlockOf(g, place) < Sectors(g) && PlaceOf(g, BlockOf(g, place)) == place
  {
    var rest := Product(place.head, g.sectors) + place.sector - 1;
    ProductGrows(place.head, g.heads, g.sectors);
    ProductGrows(place.cylinder, g.cylinders, Track(g));
    DivMod(BlockOf(g, place), Track(g), place.cylinder, rest);
    DivMod(rest, g.sectors, place.head, place.sector - 1);
  }

  /** A geometry whose heads and sectors fit into their registers. */
  predicate Addressable(g: Geometry) {
    g.heads <= 16 && g.sectors <= 255
  }

  lemma {:induction false} DriveHeadOfSmall(position: nat, head: nat)
    requires position < 2 && head < 16
    ensures DriveHead(position, head) == 0xA0 + 16 * position + head
  {
    var marks := 0xA + position;
    assert Pow2(4) == 16;
    OrDisjoint(head, marks, 4);
    assert 0xA0 + 16 * position == marks * Pow2(4);
  }

  /** The registers keep the cylinder, the low four bits of the head and the low eight of the sector. */
  lemma {:induction false} PackKeeps(position: nat, place: Place)
    requires position < 2 && place.cylinder < 0x1_0000
    ensures Unpack(Pack(position, place)) == Place(place.cylinder, place.head % 16, place.sector % 256)
    ensures place.head < 16 ==> Pack(position, place).driveHead / 16 == 0xA + position
  {
    DriveHeadLow(position, place.head % 256);
    LowNibble(place.head);
    TwoBytes(place.cylinder);
    if place.head < 16 {
      SmallByte(place.head);
      DriveHeadMarks(position, place.head);
    }
  }

  lemma {:induction false} DriveHeadLow(position: nat, head: byte)
    requires position < 2
    ensures DriveHead(position, head) % 16 == head % 16
  {
    var marks := 0xA + position;
    OrKeepsLow(head, marks);
    assert 0xA0 + 16 * position == 16 * marks;
  }

  lemma {:induction false} DriveHeadMarks(position: nat, head: nat)
    requires position < 2 && head < 16
    ensures DriveHead(position, head) / 16 == 0xA + position
  {
    DriveHeadOfSmall(position, head);
    Nibbles(DriveHead(position, head), 0xA + position, head);
  }

  lemma {:induction false} SmallByte(n: nat)
    requires n < 16
    ensures n % 256 == n
  {
  }

  lemma {:induction false} LowNibble(n: nat)
    ensures n % 256 % 16 == n % 16
  {
  }

  /** Or-ing in a multiple of 16 keeps the low four digits. */
  lemma {:induction false} OrKeepsLow(a: nat, high: nat)
    ensures Bits(OrGate, a, 16 * high) % 16 == a % 16
  {
    var b := a / 2;
    var c := b / 2;
    var d := c / 2;
    BitsStep(OrGate, a, 16 * high, b, a % 2, 8 * high, 0);
    BitsStep(OrGate, b, 8 * high, c, b % 2, 4 * high, 0);
    BitsStep(OrGate, c, 4 * high, d, c % 2, 2 * high, 0);
    BitsStep(OrGate, d, 2 * high, d / 2, d % 2, high, 0);
    var low := a % 2 + 2 * (b % 2) + 4 * (c % 2) + 8 * (d % 2);
    Nibbles(a, d / 2, low);
    Nibbles(Bits(OrGate, a, 16 * high), Bits(OrGate, d / 2, high), low);
  }

  lemma {:induction false} Nibbles(b: nat, high: nat, low: nat)
    requires low < 16 && b == 16 * high + low
    ensures b % 16 == low && b / 16 == high
  {
  }

  lemma {:induction false} TwoBytes(c: nat)
    requires c < 0x1_0000
    ensures c % 256 + 256 * ((c / 256) % 256) == c
  {
  }

  /** The registers select a block if and only if its head and its sector fit into them. */
  lemma {:induction false} RegistersSelectBlock(g: Geometry, position: nat, block: nat)
    requires Sized(g) && position < 2 && block < Sectors(g)
    ensures var place := PlaceOf(g, block);
            BlockOf(g, Unpack(Pack(position, place))) == block <==> place.head < 16 && place.sector < 256
  {
    PlaceOfBlock(g, block);
    var place := PlaceOf(g, block);
    PackKeeps(position, place);
    TrackHasSectors(g);
    Cut(place.head, 16);
    Cut(place.sector, 256);
    CutIsLess(g, place, place.head % 16, place.sector % 256);
  }

  lemma {:induction false} Cut(n: nat, m: nat)
    requires m > 0
    ensures n % m <= n && (n % m == n <==> n < m)
  {
  }

  /** A smaller head or sector gives a smaller number. */
  lemma {:induction false} CutIsLess(g: Geometry, place: Place, head: nat, sector: nat)
    requires 0 < g.sectors && head <= place.head && sector <= place.sector
    ensures BlockOf(g, Place(place.cylinder, head, sector)) == BlockOf(g, place)
            <==> head == place.head && sector == place.sector
  {
    if head < place.head {
      ProductGrows(head, place.head, g.sectors);
    }
  }

  /** The first block whose head or sector does not fit: head 0, sector 256, or head 16, sector 1. */
  function FirstLost(g: Geometry): nat {
    if g.sectors > 255 then 255 else Product(16, g.sectors)
  }

  lemma {:induction false} InFirstTrack(g: Geometry, block: nat)
    requires block < Track(g)
    ensures g.sectors > 0 && PlaceOf(g, block) == Place(0, block / g.sectors, block % g.sectors + 1)
  {
    TrackHasSectors(g);
    ProductValue(0, Track(g));
    DivMod(block, Track(g), 0, block);
  }

  /** The blocks in front of it fit. */
  lemma {:induction false} EarlierFit(g: Geometry, block: nat)
    requires Sized(g) && block < Sectors(g) && (Addressable(g) || block < FirstLost(g))
    ensures PlaceOf(g, block).head < 16 && PlaceOf(g, block).sector < 256
  {
    TrackHasSectors(g);
    if Addressable(g) {
      PlaceOfBlock(g, block);
    } else if g.sectors > 255 {
      ProductAtLeast(g.heads, g.sectors);
      InFirstTrack(g, block);
      ProductValue(0, g.sectors);
      DivMod(block, g.sectors, 0, block);
    } else {
      ProductGrows(16, g.heads, g.sectors);
      InFirstTrack(g, block);
      DivModOf(block, g.sectors, 16);
    }
  }

  lemma {:induction false} ProductAtLeast(a: nat, b: nat)
    requires a > 0
    ensures Product(a, b) >= b
  {
    ProductGrows(0, a, b);
  }

  /** It does not. */
  lemma {:induction false} LostBlock(g: Geometry)
    requires Sized(g) && !Addressable(g) && FirstLost(g) < Sectors(g)
    ensures PlaceOf(g, FirstLost(g)).head >= 16 || PlaceOf(g, FirstLost(g)).sector >= 256
  {
    TrackHasSectors(g);
    var place := if g.sectors > 255 then Place(0, 0, 256) else Place(0, 16, 1);
    HasCylinder(g);
    ProductValue(0, Track(g));
    ProductValue(0, g.sectors);
    BlockOfPlace(g, place);
  }

  lemma {:induction false} HasCylinder(g: Geometry)
    requires Sectors(g) > 0
    ensures g.cylinders > 0
  {
    ProductValue(g.cylinders, Track(g));
  }

  /** The registers select the block. */
  predicate Selects(g: Geometry, position: nat, block: nat)
    requires Sized(g) && position < 2
  {
    BlockOf(g, Unpack(Pack(position, PlaceOf(g, block)))) == block
  }

  /**
   The registers select every block that a request may name if and only if the geometry is
   addressable, or the capacity ends in front of the first block that does not fit.
   */
  lemma {:induction false} SelectsAllIffAddressable(g: Geometry, position: nat)
    requires Sized(g) && position < 2
    ensures (forall block: nat | block < Sectors(g) % 0x1_0000_0000 :: Selects(g, position, block))
            <==> Addressable(g) || Sectors(g) % 0x1_0000_0000 <= FirstLost(g)
  {
    CapacityWithin(g);
    if Addressable(g) || Capacity(g) <= FirstLost(g) {
      forall block: nat | block < Capacity(g)
        ensures Selects(g, position, block)
      {
        EarlierFit(g, block);
        RegistersSelectBlock(g, position, block);
      }
    } else {
      LostBlock(g);
      RegistersSelectBlock(g, position, FirstLost(g));
      assert !Selects(g, position, FirstLost(g));
    }
  }

  /**
   A request is cut to 256 blocks and granted if they end within the capacity, or if their sum
   wraps to a number within it.  In the first case all of them are on the disk, in the second none is.
   */
  lemma {:induction false} GrantedIsOnDisk(g: Geometry, block: u64, nblocks: u64, n: nat, i: nat)
    requires Sized(g) && i < n && (n == nblocks <= 256 || n == 256 < nblocks)
    ensures var granted, capacity := Granted(g, block, nblocks), Sectors(g) % 0x1_0000_0000;
            && Granted(g, block, 0) == None
            && (granted == Some(n) <==> block + n <= capacity || TWO64 <= block + n <= TWO64 + capacity)
            && (granted.Some? ==> granted.value == n && (OnDisk(g, PlaceOf(g, block + i)) <==> block + n < TWO64))
  {
    GrantedWhen(g, block, nblocks, n);
    CapacityWithin(g);
    SectorsBound(g);
    PlacesEnd(g, block + i);
  }

  lemma {:induction false} GrantedWhen(g: Geometry, block: u64, nblocks: u64, n: nat)
    requires 0 < n && (n == nblocks <= 256 || n == 256 < nblocks)
    ensures Granted(g, block, nblocks) ==
            if block + n <= Capacity(g) || TWO64 <= block + n <= TWO64 + Capacity(g) then Some(n) else None
  {
    CutSum(block + n, Capacity(g));
  }

  lemma {:induction false} CutSum(sum: nat, capacity: nat)
    requires sum < 2 * TWO64 && capacity < TWO64
    ensures Wrap(sum) <= capacity <==> sum <= capacity || TWO64 <= sum <= TWO64 + capacity
  {
  }

  lemma {:induction false} PlacesEnd(g: Geometry, block: nat)
    requires Sized(g)
    ensures OnDisk(g, PlaceOf(g, block)) <==> block < Sectors(g)
  {
    if block < Sectors(g) {
      PlaceOfBlock(g, block);
    } else {
      BeyondTheDisk(g, block);
    }
  }

  lemma {:induction false} BeyondTheDisk(g: Geometry, block: nat)
    requires Sized(g) && block >= Sectors(g)
    ensures !OnDisk(g, PlaceOf(g, block))
  {
    var cylinder := block / Track(g);
    if cylinder < g.cylinders {
      ProductGrows(cylinder, g.cylinders, Track(g));
      ProductValue(cylinder, Track(g));
    }
  }
}
