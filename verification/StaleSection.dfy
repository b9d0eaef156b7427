/**
 A section of two CIEs and two FDEs, in which an FDE without language-specific data is found with
 that of the FDE in front of it.
 */
module StaleSection {
  import opened Words
  import opened Memory
  import opened Leb128
  import opened EhFrame
  import opened EhFrameRecords

  /** A record with a length and an id of one byte each. */
  function RecordOf(length: byte, id: byte, rest: seq<byte>): seq<byte> {
    [length, 0, 0, 0] + [id, 0, 0, 0] + rest
  }

  /** Version, augmentation string, three numbers, and the length and data of the augmentation. */
  const FIRST_DATA: seq<byte> := [1, 'z' as int, 'L' as int, 'R' as int, 0, 1, 1, 16, 2, 1, 1]
  const SECOND_DATA: seq<byte> := [1, 'z' as int, 'R' as int, 0, 1, 1, 16, 1, 1]

  /** A CIE with augmentation "zLR" at address 1, one with "zR" at 32, and an FDE behind each. */
  const BYTES: seq<byte> :=
    RecordOf(15, 0, FIRST_DATA) + RecordOf(8, 23, [32, 8, 1, 9])
    + RecordOf(13, 0, SECOND_DATA) + RecordOf(7, 21, [64, 8, 0])

  const SECTION := Section(1, 59)

  function ByteOf(a: int): byte
    requires 1 <= a < 60
  {
    BYTES[a - 1]
  }

  /** The bytes from address 1 on. */
  function Stored(): Mem {
    map a | 1 <= a < 60 :: ByteOf(a)
  }

  lemma {:induction false} Bytes(m: Mem)
    requires m == Stored()
    ensures Holds(m, 1, RecordOf(15, 0, FIRST_DATA)) && Holds(m, 20, RecordOf(8, 23, [32, 8, 1, 9]))
    ensures Holds(m, 32, RecordOf(13, 0, SECOND_DATA)) && Holds(m, 49, RecordOf(7, 21, [64, 8, 0]))
  {
    forall k: nat {:trigger ByteAt(m, 1, BYTES, k)} | k < |BYTES|
      ensures ByteAt(m, 1, BYTES, k)
    {
    }
    var a, b, c := RecordOf(15, 0, FIRST_DATA), RecordOf(8, 23, [32, 8, 1, 9]), RecordOf(13, 0, SECOND_DATA);
    HoldsConcat(m, 1, a + b + c, RecordOf(7, 21, [64, 8, 0]));
    HoldsConcat(m, 1, a + b, c);
    HoldsConcat(m, 1, a, b);
  }

  lemma {:induction false} SmallWord(m: Mem, p: int, b: byte)
    requires Holds(m, p, [b, 0, 0, 0])
    ensures Read32(m, p) == Ok(b)
  {
    assert LeBytes(b, 4) == [b, 0, 0, 0] by {
      assert LeBytes(0, 3) == [0, 0, 0];
    }
    ReadStored32(m, p, b);
  }

  lemma {:induction false} SmallNumber(m: Mem, p: int, v: byte)
    requires Read8(m, p) == Ok(v) && v < 64
    ensures Uleb(m, p) == Ok((v, p + 1)) && Sleb(m, p) == Ok((v, p + 1))
  {
    var bs: seq<byte> := [v];
    assert EncodeUleb(v) == bs && EncodeSleb(v) == bs;
    assert Holds(m, p, bs);
    UlebRoundTrip(m, p, v);
    SlebRoundTrip(m, p, v);
  }

  lemma {:induction false} SmallPointer(m: Mem, p: int, v: byte)
    requires Read8(m, p) == Ok(v) && v <= 64
    ensures DecodePointer(m, p, 1) == Ok((v, p + 1))
  {
    var bs: seq<byte> := [v];
    assert EncodeUleb(v) == bs && Holds(m, p, bs);
    UlebRoundTrip(m, p, v);
  }

  lemma {:induction false} SmallRecord(m: Mem, p: int, length: byte, id: byte, rest: seq<byte>)
    requires Holds(m, p, RecordOf(length, id, rest))
    requires 1 <= p && 0 < length && p + 4 + length <= 60
    ensures ParseExtent(m, SECTION, p) == Ok(Extent(id == 0, p, p + 4 + length, p + 4, p + 4 + length))
    ensures Read32(m, p + 4) == Ok(id) && Holds(m, p + 8, rest)
  {
    var a, b: seq<byte> := [length, 0, 0, 0], [id, 0, 0, 0];
    HoldsConcat(m, p, a + b, rest);
    HoldsConcat(m, p, a, b);
    SmallWord(m, p, length);
    SmallWord(m, p + 4, id);
  }

  const FIRST := Cie(Extent(true, 1, 20, 5, 20), 10, 1, 1, 16, 1, 1, 0, 0, 20)
  const SECOND := Cie(Extent(true, 32, 49, 36, 49), 41, 1, 1, 16, 1, 0, 0, 0, 49)

  lemma {:induction false} SmallNumbers(m: Mem, cie: Cie, p: int)
    requires Read8(m, p) == Ok(1) && Read8(m, p + 1) == Ok(1) && Read8(m, p + 2) == Ok(16)
    ensures CieNumbers(m, cie, p) == Ok((cie.(codeAlignment := 1, dataAlignment := 1, returnRegister := 16), p + 3))
  {
    SmallNumber(m, p, 1);
    SmallNumber(m, p + 1, 1);
    SmallNumber(m, p + 2, 16);
  }

  lemma {:induction false} FirstCie(m: Mem)
    requires Holds(m, 1, RecordOf(15, 0, FIRST_DATA))
    ensures ParseCie(m, SECTION, 1) == Ok(FIRST) && ParseExtent(m, SECTION, 1) == Ok(FIRST.extent)
    ensures Read8(m, 10) == Ok('z' as int) && Read8(m, 11) == Ok('L' as int) && Read8(m, 12) == Ok('R' as int)
  {
    SmallRecord(m, 1, 15, 0, FIRST_DATA);
    HoldsAt(m, 9, FIRST_DATA, 1);
    HoldsAt(m, 9, FIRST_DATA, 2);
    HoldsAt(m, 9, FIRST_DATA, 3);
    HoldsAt(m, 9, FIRST_DATA, 4);
    HoldsAt(m, 9, FIRST_DATA, 5);
    HoldsAt(m, 9, FIRST_DATA, 6);
    HoldsAt(m, 9, FIRST_DATA, 7);
    HoldsAt(m, 9, FIRST_DATA, 8);
    HoldsAt(m, 9, FIRST_DATA, 9);
    HoldsAt(m, 9, FIRST_DATA, 10);
    assert SkipString(m, 12) == Ok(14);
    assert SkipString(m, 11) == Ok(14);
    SmallNumbers(m, EmptyCie(FIRST.extent).(augmentation := 10), 14);
    SmallNumber(m, 17, 2);
    var plain := FIRST.(instructions := 0);
    assert CieAugmentation(m, plain, 2, 3, 20) == Ok((plain, 20));
    assert CieAugmentation(m, plain.(pointerEncoding := 0), 2, 2, 19) == Ok((plain, 20));
    assert CieAugmentation(m, plain.(pointerEncoding := 0, lsdaEncoding := 0), 2, 1, 18) == Ok((plain, 20));
  }

  lemma {:induction false} SecondCie(m: Mem)
    requires Holds(m, 32, RecordOf(13, 0, SECOND_DATA))
    ensures ParseCie(m, SECTION, 32) == Ok(SECOND) && ParseExtent(m, SECTION, 32) == Ok(SECOND.extent)
    ensures Read8(m, 41) == Ok('z' as int) && Read8(m, 42) == Ok('R' as int)
  {
    SmallRecord(m, 32, 13, 0, SECOND_DATA);
    HoldsAt(m, 40, SECOND_DATA, 1);
    HoldsAt(m, 40, SECOND_DATA, 2);
    HoldsAt(m, 40, SECOND_DATA, 3);
    HoldsAt(m, 40, SECOND_DATA, 4);
    HoldsAt(m, 40, SECOND_DATA, 5);
    HoldsAt(m, 40, SECOND_DATA, 6);
    HoldsAt(m, 40, SECOND_DATA, 7);
    HoldsAt(m, 40, SECOND_DATA, 8);
    assert SkipString(m, 42) == Ok(44);
    SmallNumbers(m, EmptyCie(SECOND.extent).(augmentation := 41), 44);
    SmallNumber(m, 47, 1);
    assert CieAugmentation(m, SECOND.(instructions := 0), 1, 2, 49) == Ok((SECOND.(instructions := 0), 49));
  }

  const FIRST_FDE := Fde(Extent(false, 20, 32, 24, 32), 32, 8, 0, 32, FIRST)
  const SECOND_FDE := Fde(Extent(false, 49, 60, 53, 60), 64, 8, 0, 60, SECOND)

  lemma {:induction false} FirstFdeFields(m: Mem)
    requires Holds(m, 1, RecordOf(15, 0, FIRST_DATA)) && Holds(m, 20, RecordOf(8, 23, [32, 8, 1, 9]))
    ensures ParseExtent(m, SECTION, 20) == Ok(FIRST_FDE.extent)
    ensures FdeFields(m, SECTION, FIRST_FDE.extent) == Ok((FIRST_FDE, Some(9)))
  {
    var rest: seq<byte> := [32, 8, 1, 9];
    SmallRecord(m, 20, 8, 23, rest);
    FirstCie(m);
    HoldsAt(m, 28, rest, 0);
    HoldsAt(m, 28, rest, 1);
    HoldsAt(m, 28, rest, 2);
    HoldsAt(m, 28, rest, 3);
    SmallPointer(m, 31, 9);
    assert FdeAugmentation(m, FIRST, 1, 2, 32, Some(9)) == Ok((Some(9), 32));
    CieBehind(m, 24, 23, 1, FIRST);
    FieldsOf(m, FIRST_FDE.extent, FIRST, 32, 8, 1);
  }

  lemma {:induction false} CieBehind(m: Mem, p: int, back: nat, start: nat, cie: Cie)
    requires Read32(m, p) == Ok(back) && start == p - back < TWO64 && ParseCie(m, SECTION, start) == Ok(cie)
    ensures CieOf(m, SECTION, p) == Ok(cie)
  {
    assert Wrap(start) == start;
  }

  /** The fields of an FDE whose range and length take one byte each. */
  lemma {:induction false} FieldsOf(m: Mem, extent: Extent, cie: Cie, begin: byte, range: byte, length: byte)
    requires CieOf(m, SECTION, extent.payloadStart) == Ok(cie)
    requires cie.pointerEncoding == 1 && Read8(m, cie.augmentation) == Ok('z' as int)
    requires begin <= 64 && range <= 64 && length < 64
    requires var p := extent.payloadStart + 4;
             && Read8(m, p) == Ok(begin) && Read8(m, p + 1) == Ok(range) && Read8(m, p + 2) == Ok(length)
             && FdeAugmentation(m, cie, length, 1, p + 3, None).Ok?
    ensures var found := FdeAugmentation(m, cie, length, 1, extent.payloadStart + 7, None).value;
            FdeFields(m, SECTION, extent) == Ok((Fde(extent, begin, range, 0, found.1, cie), found.0))
  {
    var p := extent.payloadStart + 4;
    SmallRange(m, p, begin, range);
    SmallNumber(m, p + 2, length);
    FdeParts(m, SECTION, extent, cie, (begin, range), p + 2);
    BehindRange(m, SECTION, extent, Fde(extent, begin, range, 0, 0, cie), p + 2);
    LongFde(m, Fde(extent, begin, range, 0, 0, cie), p + 2, length, p + 3);
  }

  lemma {:induction false} SmallRange(m: Mem, p: int, begin: byte, range: byte)
    requires Read8(m, p) == Ok(begin) && Read8(m, p + 1) == Ok(range) && begin <= 64 && range <= 64
    ensures Range(m, p, 1) == Ok(((begin, range), p + 2))
  {
    SmallPointer(m, p, begin);
    SmallPointer(m, p + 1, range);
  }

  lemma {:induction false} SecondFdeBytes(m: Mem)
    requires Holds(m, 49, RecordOf(7, 21, [64, 8, 0]))
    ensures ParseExtent(m, SECTION, 49) == Ok(SECOND_FDE.extent) && Read32(m, 53) == Ok(21)
    ensures Read8(m, 57) == Ok(64) && Read8(m, 58) == Ok(8) && Read8(m, 59) == Ok(0)
  {
    var rest: seq<byte> := [64, 8, 0];
    SmallRecord(m, 49, 7, 21, rest);
    HoldsAt(m, 57, rest, 0);
    HoldsAt(m, 57, rest, 1);
    HoldsAt(m, 57, rest, 2);
  }

  lemma {:induction false} SecondFdeFields(m: Mem)
    requires Holds(m, 32, RecordOf(13, 0, SECOND_DATA)) && Holds(m, 49, RecordOf(7, 21, [64, 8, 0]))
    ensures ParseExtent(m, SECTION, 49) == Ok(SECOND_FDE.extent)
    ensures FdeFields(m, SECTION, SECOND_FDE.extent) == Ok((SECOND_FDE, None))
  {
    SecondFdeBytes(m);
    SecondCie(m);
    LoopEnds(m, SECOND, 0, 1, 60, None);
    CieBehind(m, 53, 21, 32, SECOND);
    FieldsOf(m, SECOND_FDE.extent, SECOND, 64, 8, 0);
  }

  /** operator++ at an FDE: what the FDE has of its own, or what the object held. */
  lemma {:induction false} ToFde(m: Mem, prior: Fde, fde: Fde, own: Option<u64>, next: Fde)
    requires ParseExtent(m, SECTION, fde.extent.start) == Ok(fde.extent) && fde.Exists() && !fde.extent.isCie
    requires FdeFields(m, SECTION, fde.extent) == Ok((fde, own)) && next == fde.(lsda := GetOr(own, prior.lsda))
    requires prior.Exists() && NextAddress(SECTION, prior.extent) == fde.extent.start
    ensures NextFde(m, SECTION, prior) == Ok(next)
  {
  }

  lemma {:induction false} FreshAt(m: Mem, fde: Fde)
    requires ParseExtent(m, SECTION, fde.extent.start) == Ok(fde.extent) && fde.Exists() && !fde.extent.isCie
    requires FdeFields(m, SECTION, fde.extent) == Ok((fde, None)) && fde.lsda == 0
    ensures FreshFde(m, SECTION, fde.extent.start) == Ok(fde)
  {
  }

  lemma {:induction false} ToCie(m: Mem, prior: Fde, extent: Extent, next: Fde)
    requires ParseExtent(m, SECTION, extent.start) == Ok(extent) && extent.isCie && next == prior.(extent := extent)
    requires prior.Exists() && NextAddress(SECTION, prior.extent) == extent.start
    ensures NextFde(m, SECTION, prior) == Ok(next)
  {
  }

  lemma {:induction false} WalkOfFour(m: Mem, e: Extent, f: Fde, lsda: u64, e': Extent, g: Fde, pc: u64)
    requires e.start == SECTION.addr && InSection(SECTION, NO_FDE.(extent := e))
    requires e.Exists() && e.isCie && ParseExtent(m, SECTION, e.start) == Ok(e)
    requires f.Exists() && !f.extent.isCie && ParseExtent(m, SECTION, f.extent.start) == Ok(f.extent)
    requires e'.Exists() && e'.isCie && ParseExtent(m, SECTION, e'.start) == Ok(e')
    requires g.Exists() && !g.extent.isCie && ParseExtent(m, SECTION, g.extent.start) == Ok(g.extent)
    requires NextAddress(SECTION, e) == f.extent.start && NextAddress(SECTION, f.extent) == e'.start
    requires NextAddress(SECTION, e') == g.extent.start
    requires FdeFields(m, SECTION, f.extent) == Ok((f, Some(lsda))) && FdeFields(m, SECTION, g.extent) == Ok((g, None))
    requires !Answers(f, pc) && Answers(g, pc) && g.lsda == 0
    ensures FindFde(m, SECTION, pc) == Ok(g.(lsda := lsda)) && FreshFde(m, SECTION, g.extent.start) == Ok(g)
  {
    var a, b := NO_FDE.(extent := e), f.(lsda := lsda);
    var c := b.(extent := e');
    var d := g.(lsda := lsda);
    CoversStays(f, lsda, b, pc);
    CoversStays(g, lsda, d, pc);
    ToFde(m, a, f, Some(lsda), b);
    ToCie(m, b, e', c);
    ToFde(m, c, g, None, d);
    FreshAt(m, g);
    assert FirstFde(m, SECTION) == Ok(a);
    FourthAnswers(m, a, b, c, d, pc);
  }

  lemma {:induction false} CoversStays(f: Fde, lsda: u64, b: Fde, pc: u64)
    requires b == f.(lsda := lsda)
    ensures b.extent == f.extent && (Answers(b, pc) <==> Answers(f, pc))
  {
  }

  lemma {:induction false} FourthAnswers(m: Mem, a: Fde, b: Fde, c: Fde, d: Fde, pc: u64)
    requires FirstFde(m, SECTION) == Ok(a)
    requires a.Exists() && InSection(SECTION, a) && !Answers(a, pc) && NextFde(m, SECTION, a) == Ok(b)
    requires b.Exists() && !Answers(b, pc) && NextFde(m, SECTION, b) == Ok(c)
    requires c.Exists() && !Answers(c, pc) && NextFde(m, SECTION, c) == Ok(d)
    requires d.Exists() && Answers(d, pc)
    ensures FindFde(m, SECTION, pc) == Ok(d)
  {
    var fdes := [a, b, c, d];
    assert NextInWalk(m, SECTION, fdes, 0) && NextInWalk(m, SECTION, fdes, 1) && NextInWalk(m, SECTION, fdes, 2);
    AnswerReached(m, SECTION, a, pc, fdes, d);
  }

  lemma {:induction false} InBytes(m: Mem)
    requires m == Stored()
    ensures ParseExtent(m, SECTION, FIRST.extent.start) == Ok(FIRST.extent)
    ensures ParseExtent(m, SECTION, SECOND.extent.start) == Ok(SECOND.extent)
    ensures ParseExtent(m, SECTION, FIRST_FDE.extent.start) == Ok(FIRST_FDE.extent)
    ensures ParseExtent(m, SECTION, SECOND_FDE.extent.start) == Ok(SECOND_FDE.extent)
    ensures FdeFields(m, SECTION, FIRST_FDE.extent) == Ok((FIRST_FDE, Some(9)))
    ensures FdeFields(m, SECTION, SECOND_FDE.extent) == Ok((SECOND_FDE, None))
  {
    Bytes(m);
    FirstCie(m);
    FirstFdeFields(m);
    SecondCie(m);
    SecondFdeFields(m);
  }

  lemma {:induction false} RangesOfBoth()
    ensures !Answers(FIRST_FDE, 70) && Answers(SECOND_FDE, 70)
  {
    assert Wrap(32 + 8) == 40 && Wrap(64 + 8) == 72;
  }

  /**
   find_fde for pc 70 gives the second FDE with the language-specific data of the first, although
   its record has none and a parse of it alone gives none.
   */
  lemma {:induction false} StaleLsdaFound() returns (m: Mem)
    ensures FindFde(m, SECTION, 70) == Ok(SECOND_FDE.(lsda := 9))
    ensures FreshFde(m, SECTION, 49) == Ok(SECOND_FDE) && SECOND_FDE.lsda == 0
  {
    m := Stored();
    InBytes(m);
    RangesOfBoth();
    WalkOfFour(m, FIRST.extent, FIRST_FDE, 9, SECOND.extent, SECOND_FDE, 70);
  }
}
