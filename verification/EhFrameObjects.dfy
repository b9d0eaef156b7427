/**
 The entry objects of eh_frame.cpp: their parse methods assign the fields in place, and
 find_fde advances one such object through the section.  Each method is tied to the function
 of module EhFrame that says what it computes.
 */
module EhFrameObjects {
  import opened Words
  import opened Memory
  import opened Leb128
  import opened EhFrame

  /** A method that stores its result in an object: the outcome and the state it left. */
  predicate Stores<T(==)>(computed: Outcome<T>, r: Outcome<()>, state: T) {
    match computed
    case Ok(value) => r == Ok(()) && state == value
    case Abort => r == Abort
    case Fault => r == Fault
    case Timeout => r == Timeout
  }

  /** decode_pointer. */
  method ReadPointer(m: Mem, p: int, encoding: u64) returns (r: Outcome<(u64, int)>)
    ensures r == DecodePointer(m, p, encoding)
  {
    if encoding == PE_OMIT {
      return Ok((0, p));
    }
    var result: u64 := 0;
    var high, low := (encoding / 16) % 8, encoding % 16;
    if high == 1 {
      result := Wrap(p);
    } else if high != 0 {
      return Abort;
    }
    if low == 1 {
      var number :- DecodeUleb128(m, p);
      var (word, q) := number;
      return Ok((Wrap(result + word), q));
    } else if low == 9 {
      var number :- DecodeSleb128(m, p);
      var (word, q) := number;
      var sum :- AddOffset(result, word);
      return Ok((sum, q));
    } else if low in {0, 2, 3, 4} {
      var width := FixedWidth(low);
      var word :- ReadWord(m, p, width);
      return Ok((Wrap(result + word), p + width));
    } else if low in {0xA, 0xB, 0xC} {
      var width := FixedWidth(low - 8);
      var word :- ReadWord(m, p, width);
      var sum :- AddOffset(result, SignExtend(word, width));
      return Ok((sum, p + width));
    } else {
      return Abort;
    }
  }

  /** common_entry. */
  class CommonEntry {
    var isCie: bool
    var start: int
    var end: int
    var payloadStart: int
    var payloadEnd: int

    constructor ()
      ensures View() == NO_EXTENT
    {
      isCie, start, end, payloadStart, payloadEnd := false, 0, 0, 0, 0;
    }

    function View(): Extent
      reads this
    {
      Extent(isCie, start, end, payloadStart, payloadEnd)
    }

    method Parse(m: Mem, sec: Section, addr: int) returns (r: Outcome<()>)
      modifies this
      ensures Stores(ParseExtent(m, sec, addr), r, View())
    {
      start := addr;
      if start == 0 || start < sec.addr {
        Fail();
        return Ok(());
      }
      var length: u64 :- Read32(m, start);
      if length != 0xFFFF_FFFF {
        payloadStart := start + 4;
      } else {
        length :- Read64(m, start + 4);
        payloadStart := start + 12;
      }
      if length == 0 {
        Fail();
        return Ok(());
      }
      if payloadStart + length >= TWO64 {
        return Fault;
      }
      payloadEnd := payloadStart + length;
      end := payloadEnd;
      if end > sec.Limit() {
        Fail();
        return Ok(());
      }
      var id :- Read32(m, payloadStart);
      isCie := id == 0;
      return Ok(());
    }

    method Fail()
      modifies this
      ensures View() == NO_EXTENT
    {
      isCie, start, end, payloadStart, payloadEnd := false, 0, 0, 0, 0;
    }
  }

  /** The loop over the augmentation string. */
  method EndOfString(m: Mem, p: int) returns (r: Outcome<int>)
    ensures r == SkipString(m, p)
  {
    var q := p;
    while true
      invariant SkipString(m, p) == SkipString(m, q)
      decreases MappedFrom(m, q)
    {
      var c :- Read8(m, q);
      MappedFromShrinks(m, q);
      q := q + 1;
      if c == 0 {
        return Ok(q);
      }
    }
  }

  /** ci_entry.  The fields besides the extent are kept together. */
  class CiEntry {
    const common: CommonEntry
    var fields: Cie

    constructor ()
      ensures fresh(common) && View() == fields == EmptyCie(NO_EXTENT)
    {
      common := new CommonEntry();
      fields := EmptyCie(NO_EXTENT);
    }

    function View(): Cie
      reads this, common
    {
      fields.(extent := common.View())
    }

    /** ci_entry::non_virtual_parse, as the constructors call it. */
    method Parse(m: Mem, sec: Section, addr: int) returns (r: Outcome<()>)
      requires fields == EmptyCie(NO_EXTENT)
      modifies this, common
      ensures Stores(ParseCie(m, sec, addr), r, View())
    {
      var parsed :- common.Parse(m, sec, addr);
      fields := fields.(extent := common.View());
      if common.start == 0 || !common.isCie {
        return Ok(());
      }
      r := ParseFields(m);
    }

    method ParseFields(m: Mem) returns (r: Outcome<()>)
      requires fields == EmptyCie(common.View())
      modifies this`fields
      ensures Stores(CieFields(m, common.View()), r, fields)
      ensures r.Ok? ==> fields.extent == common.View()
    {
      var augmentation := common.payloadStart + 5;
      var first :- Read8(m, augmentation);
      var p :- EndOfString(m, augmentation);
      fields := fields.(augmentation := augmentation);
      p :- ParseNumbers(m, p);
      if first == 'z' as int {
        var number :- DecodeUleb128(m, p);
        var (length, behind) := number;
        p :- Augment(m, length, behind);
      }
      fields := fields.(instructions := p);
      return Ok(());
    }

    method ParseNumbers(m: Mem, addr: int) returns (r: Outcome<int>)
      modifies this`fields
      ensures match CieNumbers(m, old(fields), addr)
              case Ok((cie, p)) => r == Ok(p) && fields == cie
              case Abort => r == Abort
              case Fault => r == Fault
              case Timeout => r == Timeout
    {
      var code :- DecodeUleb128(m, addr);
      var (codeAlignment, p1) := code;
      var data :- DecodeSleb128(m, p1);
      var (dataAlignment, p2) := data;
      var register :- DecodeUleb128(m, p2);
      var (returnRegister, p3) := register;
      fields := fields.(codeAlignment := codeAlignment, dataAlignment := dataAlignment,
                        returnRegister := returnRegister);
      return Ok(p3);
    }

    /** The loop over the augmentation characters. */
    method Augment(m: Mem, length: u64, addr: int) returns (r: Outcome<int>)
      modifies this`fields
      ensures match CieAugmentation(m, old(fields), length, 1, addr)
              case Ok((cie, p)) => r == Ok(p) && fields == cie
              case Abort => r == Abort
              case Fault => r == Fault
              case Timeout => r == Timeout
    {
      var p, i := addr, 1;
      while i <= length
        invariant 1 <= i <= length + 1 && fields.augmentation == old(fields.augmentation)
        invariant CieAugmentation(m, old(fields), length, 1, addr) == CieAugmentation(m, fields, length, i, p)
      {
        var c :- Read8(m, fields.augmentation + i);
        if c == 0 {
          break;
        } else if c == 'L' as int {
          var encoding :- Read8(m, p);
          fields, p := fields.(lsdaEncoding := encoding), p + 1;
        } else if c == 'P' as int {
          var encoding :- Read8(m, p);
          var pointed :- ReadPointer(m, p + 1, encoding);
          var (pointer, q) := pointed;
          fields, p := fields.(personalityEncoding := encoding, personality := pointer), q;
        } else if c == 'R' as int {
          var encoding :- Read8(m, p);
          fields, p := fields.(pointerEncoding := encoding), p + 1;
        } else {
          return Abort;
        }
        i := i + 1;
      }
      return Ok(p);
    }
  }

  method ReadCie(m: Mem, sec: Section, p: int) returns (r: Outcome<Cie>)
    ensures r == CieOf(m, sec, p)
  {
    var back :- Read32(m, p);
    var record := new CiEntry();
    var parsed :- record.Parse(m, sec, Wrap(p - back));
    return Ok(record.View());
  }

  method ReadRange(m: Mem, p: int, encoding: u64) returns (r: Outcome<((u64, u64), int)>)
    ensures r == Range(m, p, encoding)
  {
    var begin :- ReadPointer(m, p, encoding);
    var range :- ReadPointer(m, begin.1, encoding % 16);
    return Ok(((begin.0, range.0), range.1));
  }

  method ReadFdeRange(m: Mem, sec: Section, extent: Extent) returns (r: Outcome<(Fde, int)>)
    ensures r == FdeRange(m, sec, extent)
  {
    var p := extent.payloadStart;
    var cie :- ReadCie(m, sec, p);
    var range :- ReadRange(m, p + 4, cie.pointerEncoding);
    return Ok((Fde(extent, range.0.0, range.0.1, 0, 0, cie), range.1));
  }

  /** fd_entry. */
  class FdEntry {
    const common: CommonEntry
    var pcBegin: u64
    var pcRange: u64
    var lsda: u64
    var instructions: int
    var cie: Cie

    constructor ()
      ensures fresh(common) && View() == NO_FDE
    {
      common := new CommonEntry();
      pcBegin, pcRange, lsda, instructions, cie := 0, 0, 0, 0, EmptyCie(NO_EXTENT);
    }

    function View(): Fde
      reads this, common
    {
      Fde(common.View(), pcBegin, pcRange, lsda, instructions, cie)
    }

    /** fd_entry::non_virtual_parse: m_lsda keeps its value unless the record has data of its own. */
    method Parse(m: Mem, sec: Section, addr: int) returns (r: Outcome<()>)
      modifies this, common
      ensures Stores(ParseFde(m, sec, old(View()), addr), r, View())
    {
      var parsed :- common.Parse(m, sec, addr);
      if common.start == 0 || common.isCie {
        return Ok(());
      }
      r := ParseFields(m, sec);
    }

    method ParseFields(m: Mem, sec: Section) returns (r: Outcome<()>)
      modifies this
      ensures match FdeFields(m, sec, common.View())
              case Ok((fde, own)) => r == Ok(()) && View() == fde.(lsda := GetOr(own, old(lsda)))
              case Abort => r == Abort
              case Fault => r == Fault
              case Timeout => r == Timeout
    {
      var p :- ParseRange(m, sec);
      var c :- Read8(m, cie.augmentation);
      if c == 'z' as int {
        var number :- DecodeUleb128(m, p);
        var (length, behind) := number;
        p :- Augment(m, length, behind);
      }
      instructions := p;
      return Ok(());
    }

    method ParseRange(m: Mem, sec: Section) returns (r: Outcome<int>)
      modifies this
      ensures lsda == old(lsda)
      ensures match FdeRange(m, sec, common.View())
              case Ok((fde, p)) => r == Ok(p) && View() == fde.(instructions := old(instructions), lsda := old(lsda))
              case Abort => r == Abort
              case Fault => r == Fault
              case Timeout => r == Timeout
    {
      var read :- ReadFdeRange(m, sec, common.View());
      cie, pcBegin, pcRange := read.0.cie, read.0.pcBegin, read.0.pcRange;
      return Ok(read.1);
    }

    /** The loop over the augmentation characters of the CIE. */
    method Augment(m: Mem, length: u64, addr: int) returns (r: Outcome<int>)
      modifies this`lsda
      ensures match FdeAugmentation(m, cie, length, 1, addr, None)
              case Ok((own, p)) => r == Ok(p) && lsda == GetOr(own, old(lsda))
              case Abort => r == Abort
              case Fault => r == Fault
              case Timeout => r == Timeout
    {
      var p, i := addr, 1;
      ghost var own: Option<u64> := None;
      while true
        invariant 1 <= i <= length + 1 && lsda == GetOr(own, old(lsda))
        invariant FdeAugmentation(m, cie, length, 1, addr, None) == FdeAugmentation(m, cie, length, i, p, own)
        decreases length + 1 - i
      {
        var c :- Read8(m, cie.augmentation + i);
        if c == 0 || i > length {
          return Ok(p);
        } else if c == 'L' as int {
          var pointed :- ReadPointer(m, p, cie.lsdaEncoding);
          var (pointer, q) := pointed;
          lsda, p, own := pointer, q, Some(pointer);
        } else if c != 'P' as int && c != 'R' as int {
          return Abort;
        }
        i := i + 1;
      }
    }

    /** operator++. */
    method Advance(m: Mem, sec: Section) returns (r: Outcome<()>)
      requires common.start != 0
      modifies this, common
      ensures Stores(NextFde(m, sec, old(View())), r, View())
    {
      if common.end + 4 < sec.Limit() {
        r := Parse(m, sec, common.end);
      } else {
        r := Parse(m, sec, 0);
      }
    }

    /** is_in_range. */
    method IsInRange(pc: u64) returns (b: bool)
      ensures b <==> View().Covers(pc)
    {
      b := pc > pcBegin && pc <= Wrap(pcBegin + pcRange);
    }
  }

  /** eh_frame::find_fde. */
  method Find(m: Mem, sec: Section, pc: u64) returns (r: Outcome<Fde>)
    ensures r == FindFde(m, sec, pc)
  {
    var fde := new FdEntry();
    var parsed :- fde.Parse(m, sec, sec.addr);
    while fde.common.start != 0
      invariant fresh(fde.common) && InSection(sec, fde.View())
      invariant FindFde(m, sec, pc) == FindFrom(m, sec, fde.View(), pc)
      decreases if fde.common.start != 0 then sec.Limit() - fde.common.start + 1 else 0
    {
      if !fde.common.isCie {
        var covered := fde.IsInRange(pc);
        if covered {
          return Ok(fde.View());
        }
      }
      var advanced :- fde.Advance(m, sec);
    }
    return Ok(NO_FDE);
  }
}
