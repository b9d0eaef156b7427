/**
 The contents of .eh_frame records as the LSB Core Specification (section 10.6) lays them out,
 given as a relation between bytes in memory and the fields they write down.  The parsers of
 module EhFrame read back exactly these fields.
 */
module EhFrameRecords {
  import opened Words
  import opened Memory
  import opened Leb128
  import opened EhFrame

  /////////////////////////////////////////////////////////////////////////////
  // Pointers
  /////////////////////////////////////////////////////////////////////////////

  /** What an encoded pointer at p is relative to. */
  function Base(p: int, encoding: byte): u64 {
    if (encoding / 16) % 8 == 1 then Wrap(p) else 0
  }

  /** The bytes that the formats of fixed width take (section 10.5.1 of the LSB). */
  function StoredWidth(low: nat): (w: nat)
    ensures w in {2, 4, 8}
  {
    match low
    case 0x02 => 2
    case 0x0A => 2
    case 0x03 => 4
    case 0x0B => 4
    case _ => 8
  }

  /** A distance that a format can hold. */
  predicate FormatFits(distance: int, low: nat) {
    if low == 1 then true
    else if low == 9 then IsSigned64(distance)
    else if low in {0, 2, 3, 4} then Wrap(distance) < WordLimit(StoredWidth(low))
    else low in {0xA, 0xB, 0xC} && SignedFits(distance, StoredWidth(low))
  }

  predicate SignedFits(distance: int, width: nat)
    requires width in {2, 4, 8}
  {
    0 <= 2 * distance + WordLimit(width) < 2 * WordLimit(width)
  }

  /** The bytes of a distance in a format. */
  function FormatBytes(distance: int, low: nat): (bs: seq<byte>)
    requires FormatFits(distance, low)
    ensures bs != []
  {
    if low == 1 then EncodeUleb(Wrap(distance))
    else if low == 9 then EncodeSleb(distance)
    else if low in {0, 2, 3, 4} then LeBytes(Wrap(distance), StoredWidth(low))
    else
      var width := StoredWidth(low);
      LeBytes(if distance >= 0 then distance else distance + WordLimit(width), width)
  }

  /** The encodings that the parser supports, and targets that their format can reach from p. */
  predicate PointerFits(target: u64, p: int, encoding: byte) {
    encoding != 0xFF && (encoding / 16) % 8 < 2 && FormatFits(target - Base(p, encoding), encoding % 16)
  }

  /** The bytes of a pointer to target that stands at p. */
  function PointerBytes(target: u64, p: int, encoding: byte): (bs: seq<byte>)
    requires PointerFits(target, p, encoding)
    ensures bs != []
  {
    FormatBytes(target - Base(p, encoding), encoding % 16)
  }

  lemma {:induction false} BackFromBase(base: u64, target: u64)
    ensures Wrap(base + Wrap(target - base)) == target
  {
    if target < base {
      assert Wrap(target - base) == target - base + TWO64;
    }
  }

  lemma {:induction false} SignedWord(distance: int, width: nat)
    requires width in {2, 4, 8} && SignedFits(distance, width)
    ensures var word := if distance >= 0 then distance else distance + WordLimit(width);
            0 <= word < WordLimit(width) && SignExtend(word, width) == Wrap(distance)
  {
  }

  lemma {:induction false} UnsignedRoundTrip(m: Mem, p: int, base: u64, target: u64, low: nat)
    requires low in {0, 1, 2, 3, 4} && FormatFits(target - base, low) && Holds(m, p, FormatBytes(target - base, low))
    ensures DecodeFormat(m, p, base, low) == Ok((target, p + |FormatBytes(target - base, low)|))
  {
    BackFromBase(base, target);
    if low == 1 {
      UlebRoundTrip(m, p, Wrap(target - base));
    } else {
      ReadStoredWord(m, p, Wrap(target - base), StoredWidth(low));
    }
  }

  lemma {:induction false} SignedRoundTrip(m: Mem, p: int, base: u64, target: u64, low: nat)
    requires low in {9, 0xA, 0xB, 0xC} && FormatFits(target - base, low) && Holds(m, p, FormatBytes(target - base, low))
    ensures DecodeFormat(m, p, base, low) == Ok((target, p + |FormatBytes(target - base, low)|))
  {
    var distance := target - base;
    SignedWrap(distance);
    AddOffsetReaches(base, distance);
    if low == 9 {
      SlebRoundTrip(m, p, Wrap(distance));
    } else {
      var width := StoredWidth(low);
      SignedWord(distance, width);
      ReadStoredWord(m, p, if distance >= 0 then distance else distance + WordLimit(width), width);
    }
  }

  /** A pointer reads back as its target, whatever its encoding. */
  lemma {:induction false} PointerRoundTrip(m: Mem, p: int, target: u64, encoding: byte)
    requires PointerFits(target, p, encoding) && Holds(m, p, PointerBytes(target, p, encoding))
    ensures DecodePointer(m, p, encoding) == Ok((target, p + |PointerBytes(target, p, encoding)|))
  {
    var base, low := Base(p, encoding), encoding % 16;
    AtBase(m, p, encoding, base, low);
    if low < 8 {
      UnsignedRoundTrip(m, p, base, target, low);
    } else {
      SignedRoundTrip(m, p, base, target, low);
    }
  }

  /** The encodings that the parser knows: absolute or relative to the pointer itself, in nine formats. */
  predicate Supported(encoding: byte) {
    (encoding / 16) % 8 in {0, 1} && encoding % 16 in {0, 1, 2, 3, 4, 9, 0xA, 0xB, 0xC}
  }

  /** It aborts on all others; DW_EH_PE_omit takes no bytes, and unsigned words of fixed width are never refused. */
  lemma {:induction false} PointerRefused(m: Mem, p: int, encoding: byte)
    ensures encoding == 0xFF ==> DecodePointer(m, p, encoding) == Ok((0, p))
    ensures encoding != 0xFF && !Supported(encoding) ==> DecodePointer(m, p, encoding) == Abort
    ensures Supported(encoding) && encoding % 16 in {0, 2, 3, 4} ==> !DecodePointer(m, p, encoding).Abort?
  {
    if encoding != 0xFF && Supported(encoding) {
      AtBase(m, p, encoding, Base(p, encoding), encoding % 16);
    }
  }

  lemma {:induction false} AtBase(m: Mem, p: int, encoding: byte, base: u64, low: nat)
    requires encoding != 0xFF && (encoding / 16) % 8 < 2 && base == Base(p, encoding) && low == encoding % 16
    ensures DecodePointer(m, p, encoding) == DecodeFormat(m, p, base, low)
  {
  }

  /** A pointer to target is written from p to q. */
  ghost predicate PointerWritten(m: Mem, p: int, target: u64, encoding: byte, q: int) {
    && PointerFits(target, p, encoding) && Holds(m, p, PointerBytes(target, p, encoding))
    && q == p + |PointerBytes(target, p, encoding)|
  }

  lemma {:induction false} PointerRead(m: Mem, p: int, target: u64, encoding: byte, q: int)
    requires PointerWritten(m, p, target, encoding, q)
    ensures q > p && DecodePointer(m, p, encoding) == Ok((target, q))
  {
    PointerRoundTrip(m, p, target, encoding);
  }

  /////////////////////////////////////////////////////////////////////////////
  // CIEs
  /////////////////////////////////////////////////////////////////////////////

  /** One character of an augmentation string behind its 'z', with the data it announces. */
  datatype Augment =
    | LsdaEncoding(encoding: byte)
    | Personality(encoding: byte, routine: u64)
    | PointerEncoding(encoding: byte)

  function Character(a: Augment): byte {
    match a
    case LsdaEncoding(_) => 'L' as int
    case Personality(_, _) => 'P' as int
    case PointerEncoding(_) => 'R' as int
  }

  function Characters(items: seq<Augment>): (cs: seq<byte>)
    ensures |cs| == |items| && forall k | 0 <= k < |cs| :: cs[k] == Character(items[k])
  {
    seq(|items|, k requires 0 <= k < |items| => Character(items[k]))
  }

  /** The data of the items is written from p to q, in order. */
  ghost predicate ItemsWritten(m: Mem, p: int, items: seq<Augment>, q: int)
    decreases |items|
  {
    if items == [] then p == q
    else
      && Read8(m, p) == Ok(items[0].encoding)
      && match items[0]
         case Personality(encoding, routine) =>
           exists next :: PointerWritten(m, p + 1, routine, encoding, next) && ItemsWritten(m, next, items[1..], q)
         case _ => ItemsWritten(m, p + 1, items[1..], q)
  }

  /** What the items leave in the fields of a CIE: the last of each kind counts. */
  function WithItems(cie: Cie, items: seq<Augment>): Cie
    decreases |items|
  {
    if items == [] then cie else WithItems(WithItem(cie, items[0]), items[1..])
  }

  function WithItem(cie: Cie, a: Augment): Cie {
    match a
    case LsdaEncoding(encoding) => cie.(lsdaEncoding := encoding)
    case Personality(encoding, routine) => cie.(personalityEncoding := encoding, personality := routine)
    case PointerEncoding(encoding) => cie.(pointerEncoding := encoding)
  }

  lemma {:induction false} ItemsTakeSpace(m: Mem, p: int, items: seq<Augment>, q: int)
    requires ItemsWritten(m, p, items, q)
    ensures q >= p + |items|
    decreases |items|
  {
    if items != [] {
      if items[0].Personality? {
        var next :| PointerWritten(m, p + 1, items[0].routine, items[0].encoding, next)
                    && ItemsWritten(m, next, items[1..], q);
        ItemsTakeSpace(m, next, items[1..], q);
      } else {
        ItemsTakeSpace(m, p + 1, items[1..], q);
      }
    }
  }

  /** The augmentation loop reads all items of a string, if the length in front of the data is enough. */
  lemma {:induction false} ItemsRead(m: Mem, cie: Cie, length: u64, i: nat, p: int, items: seq<Augment>, q: int)
    requires ItemsWritten(m, p, items, q) && i + |items| <= length + 1
    requires Holds(m, cie.augmentation + i, Characters(items) + [0])
    ensures CieAugmentation(m, cie, length, i, p) == Ok((WithItems(cie, items), q))
    decreases |items|
  {
    if items == [] {
      HoldsAt(m, cie.augmentation + i, Characters(items) + [0], 0);
    } else {
      var rest := Characters(items[1..]) + [0];
      assert Characters(items) + [0] == [Character(items[0])] + rest;
      HeadAndRest(m, cie.augmentation + i, Character(items[0]), rest);
      var next := p + 1;
      if items[0].Personality? {
        next :| PointerWritten(m, p + 1, items[0].routine, items[0].encoding, next)
                && ItemsWritten(m, next, items[1..], q);
        PointerRead(m, p + 1, items[0].routine, items[0].encoding, next);
      }
      ItemRead(m, cie, length, i, p, items[0], next);
      ItemsRead(m, WithItem(cie, items[0]), length, i + 1, next, items[1..], q);
    }
  }

  lemma {:induction false} ItemRead(m: Mem, cie: Cie, length: u64, i: nat, p: int, a: Augment, next: int)
    requires i <= length && Read8(m, cie.augmentation + i) == Ok(Character(a)) && Read8(m, p) == Ok(a.encoding)
    requires if a.Personality? then DecodePointer(m, p + 1, a.encoding) == Ok((a.routine, next)) else next == p + 1
    ensures CieAugmentation(m, cie, length, i, p) == CieAugmentation(m, WithItem(cie, a), length, i + 1, next)
  {
  }

  /** The fields of a CIE; without items its augmentation string is empty. */
  datatype CieText = CieText(code: u64, data: int, returnRegister: u64, items: Option<seq<Augment>>)

  /** The augmentation string, without its terminating zero. */
  function Augmentation(items: Option<seq<Augment>>): (bs: seq<byte>)
    ensures 0 !in bs
  {
    match items
    case None => []
    case Some(list) => ['z' as int] + Characters(list)
  }

  function Numbers(t: CieText): seq<byte>
    requires IsSigned64(t.data)
  {
    EncodeUleb(t.code) + (EncodeSleb(t.data) + EncodeUleb(t.returnRegister))
  }

  /** Behind the id and the version at p, a CIE is written up to its instructions at q. */
  ghost predicate CieWritten(m: Mem, p: int, t: CieText, q: int) {
    && IsSigned64(t.data) && Holds(m, p + 5, Augmentation(t.items) + [0])
    && var p1 := p + 5 + |Augmentation(t.items)| + 1;
       var p2 := p1 + |Numbers(t)|;
       Holds(m, p1, Numbers(t)) && ItemsPart(m, p2, t.items, q)
  }

  ghost predicate ItemsBehindLength(m: Mem, p: int, length: u64, items: seq<Augment>, q: int) {
    var start := p + |EncodeUleb(length)|;
    Holds(m, p, EncodeUleb(length)) && ItemsWritten(m, start, items, q) && q == start + length
  }

  lemma {:induction false} StringSkipped(m: Mem, p: int, text: seq<byte>)
    requires 0 !in text && Holds(m, p, text + [0])
    ensures SkipString(m, p) == Ok(p + |text| + 1)
    decreases |text|
  {
    HoldsAt(m, p, text + [0], 0);
    if text != [] {
      assert text + [0] == [text[0]] + (text[1..] + [0]);
      HeadAndRest(m, p, text[0], text[1..] + [0]);
      StringSkipped(m, p + 1, text[1..]);
    }
  }

  lemma {:induction false} NumbersRead(m: Mem, cie: Cie, p: int, t: CieText)
    requires IsSigned64(t.data) && Holds(m, p, Numbers(t))
    ensures CieNumbers(m, cie, p) ==
            Ok((cie.(codeAlignment := t.code, dataAlignment := Wrap(t.data), returnRegister := t.returnRegister),
               p + |Numbers(t)|))
  {
    var p1 := p + |EncodeUleb(t.code)|;
    var p2 := p1 + |EncodeSleb(t.data)|;
    HoldsConcat(m, p, EncodeUleb(t.code), EncodeSleb(t.data) + EncodeUleb(t.returnRegister));
    HoldsConcat(m, p1, EncodeSleb(t.data), EncodeUleb(t.returnRegister));
    UlebRoundTrip(m, p, t.code);
    SignedWrap(t.data);
    SlebRoundTrip(m, p1, Wrap(t.data));
    UlebRoundTrip(m, p2, t.returnRegister);
  }

  /** The fields in front of the augmentation data. */
  function Plain(extent: Extent, t: CieText): Cie {
    EmptyCie(extent).(augmentation := extent.payloadStart + 5, codeAlignment := t.code, dataAlignment := Wrap(t.data),
                      returnRegister := t.returnRegister)
  }

  /** A CIE reads back as the fields it was written from. */
  lemma {:induction false} CieRead(m: Mem, extent: Extent, t: CieText, q: int)
    requires CieWritten(m, extent.payloadStart, t, q)
    ensures CieFields(m, extent) ==
            Ok(WithItems(Plain(extent, t), ItemsOf(t.items)).(instructions := q))
  {
    var start, text := extent.payloadStart + 5, Augmentation(t.items);
    var p1 := start + |text| + 1;
    StringSkipped(m, start, text);
    NumbersRead(m, EmptyCie(extent).(augmentation := start), p1, t);
    HoldsAt(m, start, text + [0], 0);
    CieParts(m, extent, (text + [0])[0], p1, Plain(extent, t), p1 + |Numbers(t)|);
    ItemsPartRead(m, Plain(extent, t), p1 + |Numbers(t)|, t.items, q);
  }

  lemma {:induction false} CieParts(m: Mem, extent: Extent, c: byte, p1: int, cie: Cie, p2: int)
    requires var start := extent.payloadStart + 5;
             && Read8(m, start) == Ok(c) && SkipString(m, start) == Ok(p1)
             && CieNumbers(m, EmptyCie(extent).(augmentation := start), p1) == Ok((cie, p2))
    ensures CieFields(m, extent) == CieRest(m, cie, c, p2)
  {
  }

  ghost predicate ItemsPart(m: Mem, p: int, items: Option<seq<Augment>>, q: int) {
    match items
    case None => q == p
    case Some(list) => exists length: u64 :: ItemsBehindLength(m, p, length, list, q)
  }

  lemma {:induction false} ItemsPartRead(m: Mem, cie: Cie, p: int, items: Option<seq<Augment>>, q: int)
    requires ItemsPart(m, p, items, q) && Holds(m, cie.augmentation, Augmentation(items) + [0])
    ensures CieRest(m, cie, (Augmentation(items) + [0])[0], p) ==
            Ok(WithItems(cie, ItemsOf(items)).(instructions := q))
  {
    if items.Some? {
      var length: u64 :| ItemsBehindLength(m, p, length, items.value, q);
      StringOfItems(m, cie.augmentation, items.value);
      LengthAndItems(m, cie, p, length, items.value, q);
      RestIsItems(m, cie, p, length, p + |EncodeUleb(length)|, WithItems(cie, items.value), q);
    }
  }

  lemma {:induction false} RestIsItems(m: Mem, cie: Cie, p: int, length: u64, p': int, cie': Cie, q: int)
    requires Uleb(m, p) == Ok((length, p')) && CieAugmentation(m, cie, length, 1, p') == Ok((cie', q))
    ensures CieRest(m, cie, 'z' as int, p) == Ok(cie'.(instructions := q))
  {
  }

  lemma {:induction false} StringOfItems(m: Mem, start: int, items: seq<Augment>)
    requires Holds(m, start, Augmentation(Some(items)) + [0])
    ensures Read8(m, start) == Ok('z' as int) && Holds(m, start + 1, Characters(items) + [0])
  {
    assert Augmentation(Some(items)) + [0] == ['z' as int] + (Characters(items) + [0]);
    HeadAndRest(m, start, 'z' as int, Characters(items) + [0]);
  }

  lemma {:induction false} LengthAndItems(m: Mem, cie: Cie, p: int, length: u64, items: seq<Augment>, q: int)
    requires ItemsBehindLength(m, p, length, items, q) && Holds(m, cie.augmentation + 1, Characters(items) + [0])
    ensures Uleb(m, p) == Ok((length, p + |EncodeUleb(length)|))
    ensures CieAugmentation(m, cie, length, 1, p + |EncodeUleb(length)|) == Ok((WithItems(cie, items), q))
  {
    UlebRoundTrip(m, p, length);
    ItemsTakeSpace(m, p + |EncodeUleb(length)|, items, q);
    ItemsRead(m, cie, length, 1, p + |EncodeUleb(length)|, items, q);
  }

  /////////////////////////////////////////////////////////////////////////////
  // FDEs
  /////////////////////////////////////////////////////////////////////////////

  /**
   The fields of an FDE.  `length` stands in front of its augmentation data, and `lsdas` holds a
   target for every LsdaEncoding of its CIE.
   */
  datatype FdeText = FdeText(pcBegin: u64, pcRange: u64, length: u64, lsdas: seq<u64>)

  /** The language-specific data of an FDE is written from p to r, for the items of its CIE. */
  ghost predicate LsdasWritten(m: Mem, p: int, encoding: byte, items: seq<Augment>, lsdas: seq<u64>, r: int)
    decreases |items|
  {
    if items == [] then lsdas == [] && p == r
    else if items[0].LsdaEncoding? then
      lsdas != [] && exists next ::
        PointerWritten(m, p, lsdas[0], encoding, next) && LsdasWritten(m, next, encoding, items[1..], lsdas[1..], r)
    else LsdasWritten(m, p, encoding, items[1..], lsdas, r)
  }

  /** The last target counts. */
  function LastOf(own: Option<u64>, lsdas: seq<u64>): Option<u64> {
    if lsdas == [] then own else Some(lsdas[|lsdas| - 1])
  }

  /** No 'L' stands behind the first `length` characters: the loop looks at no more. */
  predicate NoLateLsda(items: seq<Augment>, length: int) {
    forall k | 0 <= k < |items| && items[k].LsdaEncoding? :: k < length
  }

  lemma {:induction false} NoLateRest(items: seq<Augment>, length: int)
    requires items != []
    ensures NoLateLsda(items, length) <==> (items[0].LsdaEncoding? ==> length > 0) && NoLateLsda(items[1..], length - 1)
  {
    if NoLateLsda(items[1..], length - 1) && (items[0].LsdaEncoding? ==> length > 0) {
      forall k | 0 <= k < |items| && items[k].LsdaEncoding?
        ensures k < length
      {
        if k > 0 {
          assert items[k] == items[1..][k - 1];
        }
      }
    }
    if NoLateLsda(items, length) {
      forall k | 0 <= k < |items[1..]| && items[1..][k].LsdaEncoding?
        ensures k < length - 1
      {
        assert items[1..][k] == items[k + 1];
      }
    }
  }

  /** Behind the characters that the loop looks at, an 'L' takes space. */
  lemma {:induction false} LateTakesSpace(m: Mem, p: int, encoding: byte, items: seq<Augment>, lsdas: seq<u64>, r: int)
    requires LsdasWritten(m, p, encoding, items, lsdas, r)
    ensures p <= r && (p == r <==> NoLateLsda(items, 0)) && (p == r ==> lsdas == [])
    decreases |items|
  {
    if items != [] {
      NoLateRest(items, 0);
      assert NoLateLsda(items[1..], -1) <==> NoLateLsda(items[1..], 0);
      if items[0].LsdaEncoding? {
        var next :| PointerWritten(m, p, lsdas[0], encoding, next)
                    && LsdasWritten(m, next, encoding, items[1..], lsdas[1..], r);
        PointerRead(m, p, lsdas[0], encoding, next);
        LateTakesSpace(m, next, encoding, items[1..], lsdas[1..], r);
      } else {
        LateTakesSpace(m, p, encoding, items[1..], lsdas, r);
      }
    }
  }

  /** The targets that the loop reads: those of the 'L's among the first `length` characters. */
  function Seen(items: seq<Augment>, length: int, lsdas: seq<u64>): seq<u64>
    decreases |items|
  {
    if items == [] || length <= 0 || lsdas == [] then []
    else if items[0].LsdaEncoding? then [lsdas[0]] + Seen(items[1..], length - 1, lsdas[1..])
    else Seen(items[1..], length - 1, lsdas)
  }

  /** They are the first ones, and all of them if no 'L' is late. */
  lemma {:induction false} SeenIsPrefix(m: Mem, p: int, encoding: byte, items: seq<Augment>, length: int,
                                        lsdas: seq<u64>, r: int)
    requires LsdasWritten(m, p, encoding, items, lsdas, r)
    ensures Seen(items, length, lsdas) <= lsdas
    ensures Seen(items, length, lsdas) == lsdas <==> NoLateLsda(items, length)
    decreases |items|
  {
    if items != [] {
      NoLateRest(items, length);
      if items[0].LsdaEncoding? {
        var next :| PointerWritten(m, p, lsdas[0], encoding, next)
                    && LsdasWritten(m, next, encoding, items[1..], lsdas[1..], r);
        SeenIsPrefix(m, next, encoding, items[1..], length - 1, lsdas[1..], r);
        assert lsdas == [lsdas[0]] + lsdas[1..];
      } else {
        SeenIsPrefix(m, p, encoding, items[1..], length - 1, lsdas, r);
      }
    }
  }

  /** The outcome of the loop: the last target seen; it stops at r if no 'L' is late, and else in front of it. */
  predicate LsdasFound(found: Outcome<(Option<u64>, int)>, inTime: bool, last: Option<u64>, r: int) {
    found.Ok? && found.value.0 == last && if inTime then found.value.1 == r else found.value.1 < r
  }

  /** The turns of the loop: over an 'L', over any other character, and the last one. */
  lemma {:induction false} LsdaTurn(m: Mem, cie: Cie, length: u64, i: nat, p: int, own: Option<u64>, target: u64,
                                    next: int)
    requires Read8(m, cie.augmentation + i) == Ok('L' as int) && i <= length
    requires DecodePointer(m, p, cie.lsdaEncoding) == Ok((target, next))
    ensures FdeAugmentation(m, cie, length, i, p, own) == FdeAugmentation(m, cie, length, i + 1, next, Some(target))
  {
  }

  lemma {:induction false} OtherTurn(m: Mem, cie: Cie, length: u64, i: nat, p: int, own: Option<u64>, a: Augment)
    requires Read8(m, cie.augmentation + i) == Ok(Character(a)) && i <= length && !a.LsdaEncoding?
    ensures FdeAugmentation(m, cie, length, i, p, own) == FdeAugmentation(m, cie, length, i + 1, p, own)
  {
  }

  lemma {:induction false} LoopEnds(m: Mem, cie: Cie, length: u64, i: nat, p: int, own: Option<u64>)
    requires Read8(m, cie.augmentation + i).Ok? && (Read8(m, cie.augmentation + i) == Ok(0) || i > length)
    ensures FdeAugmentation(m, cie, length, i, p, own) == Ok((own, p))
  {
  }

  /** What the loop finds from character i on, with the items from there on. */
  predicate LoopFound(m: Mem, cie: Cie, length: u64, i: nat, p: int, items: seq<Augment>, own: Option<u64>,
                      lsdas: seq<u64>, r: int)
  {
    LsdasFound(FdeAugmentation(m, cie, length, i, p, own), NoLateLsda(items, length + 1 - i),
               LastOf(own, Seen(items, length + 1 - i, lsdas)), r)
  }

  lemma {:induction false} LsdaStep(m: Mem, cie: Cie, length: u64, i: nat, p: int, items: seq<Augment>,
                                    own: Option<u64>, lsdas: seq<u64>, next: int, r: int)
    requires items != [] && items[0].LsdaEncoding? && lsdas != [] && i <= length
    requires Read8(m, cie.augmentation + i) == Ok('L' as int)
    requires DecodePointer(m, p, cie.lsdaEncoding) == Ok((lsdas[0], next))
    requires LoopFound(m, cie, length, i + 1, next, items[1..], Some(lsdas[0]), lsdas[1..], r)
    ensures LoopFound(m, cie, length, i, p, items, own, lsdas, r)
  {
    NoLateRest(items, length + 1 - i);
    LsdaTurn(m, cie, length, i, p, own, lsdas[0], next);
    LastBehind(own, lsdas[0], Seen(items[1..], length - i, lsdas[1..]));
  }

  lemma {:induction false} OtherStep(m: Mem, cie: Cie, length: u64, i: nat, p: int, items: seq<Augment>,
                                     own: Option<u64>, lsdas: seq<u64>, r: int)
    requires items != [] && !items[0].LsdaEncoding? && i <= length
    requires Read8(m, cie.augmentation + i) == Ok(Character(items[0]))
    requires LoopFound(m, cie, length, i + 1, p, items[1..], own, lsdas, r)
    ensures LoopFound(m, cie, length, i, p, items, own, lsdas, r)
  {
    NoLateRest(items, length + 1 - i);
    OtherTurn(m, cie, length, i, p, own, items[0]);
  }

  lemma {:induction false} LastStep(m: Mem, cie: Cie, encoding: byte, length: u64, i: nat, p: int,
                                    items: seq<Augment>, own: Option<u64>, lsdas: seq<u64>, r: int)
    requires LsdasWritten(m, p, encoding, items, lsdas, r) && Read8(m, cie.augmentation + i).Ok?
    requires (items == [] && Read8(m, cie.augmentation + i) == Ok(0)) || i == length + 1
    requires i <= length + 1
    ensures LoopFound(m, cie, length, i, p, items, own, lsdas, r)
  {
    LateTakesSpace(m, p, encoding, items, lsdas, r);
    LoopEnds(m, cie, length, i, p, own);
  }

  /** The augmentation loop of an FDE, from character i on. */
  lemma {:induction false} LsdasRead(m: Mem, cie: Cie, encoding: byte, length: u64, i: nat, p: int,
                                     items: seq<Augment>, own: Option<u64>, lsdas: seq<u64>, r: int)
    requires cie.lsdaEncoding == encoding && LsdasWritten(m, p, encoding, items, lsdas, r)
    requires i <= length + 1 && Holds(m, cie.augmentation + i, Characters(items) + [0])
    ensures LoopFound(m, cie, length, i, p, items, own, lsdas, r)
    decreases |items|
  {
    HoldsAt(m, cie.augmentation + i, Characters(items) + [0], 0);
    if items == [] || i > length {
      LastStep(m, cie, encoding, length, i, p, items, own, lsdas, r);
    } else {
      assert Characters(items) + [0] == [Character(items[0])] + (Characters(items[1..]) + [0]);
      HeadAndRest(m, cie.augmentation + i, Character(items[0]), Characters(items[1..]) + [0]);
      if items[0].LsdaEncoding? {
        var next :| PointerWritten(m, p, lsdas[0], encoding, next)
                    && LsdasWritten(m, next, encoding, items[1..], lsdas[1..], r);
        PointerRead(m, p, lsdas[0], encoding, next);
        LsdasRead(m, cie, encoding, length, i + 1, next, items[1..], Some(lsdas[0]), lsdas[1..], r);
        LsdaStep(m, cie, length, i, p, items, own, lsdas, next, r);
      } else {
        LsdasRead(m, cie, encoding, length, i + 1, p, items[1..], own, lsdas, r);
        OtherStep(m, cie, length, i, p, items, own, lsdas, r);
      }
    }
  }

  lemma {:induction false} LastBehind(own: Option<u64>, first: u64, rest: seq<u64>)
    ensures LastOf(own, [first] + rest) == LastOf(Some(first), rest)
  {
  }

  /** The items of a CIE, if it has an augmentation. */
  function ItemsOf(items: Option<seq<Augment>>): seq<Augment> {
    match items
    case None => []
    case Some(list) => list
  }

  /**
   Behind its CIE pointer at p, an FDE is written up to its instructions at q; the pointers of its
   augmentation data end at r.
   */
  ghost predicate FdeWritten(m: Mem, p: int, cie: Cie, items: Option<seq<Augment>>, t: FdeText, r: int, q: int) {
    && cie.pointerEncoding < 256 && cie.lsdaEncoding < 256
    && Holds(m, cie.augmentation, Augmentation(items) + [0])
    && exists p1, p2 :: Between(m, p, cie, items, t, p1, p2, r, q)
  }

  ghost predicate Between(m: Mem, p: int, cie: Cie, items: Option<seq<Augment>>, t: FdeText, p1: int, p2: int,
                          r: int, q: int)
    requires cie.pointerEncoding < 256 && cie.lsdaEncoding < 256
  {
    && PointerWritten(m, p + 4, t.pcBegin, cie.pointerEncoding, p1)
    && PointerWritten(m, p1, t.pcRange, cie.pointerEncoding % 16, p2)
    && RestWritten(m, p2, cie.lsdaEncoding, items, t, r, q)
  }

  /**
   Behind the range at p: nothing, or the length and exactly as many bytes of data, which begin
   with the targets.
   */
  ghost predicate RestWritten(m: Mem, p: int, encoding: byte, items: Option<seq<Augment>>, t: FdeText, r: int, q: int) {
    match items
    case None => t.lsdas == [] && q == r == p
    case Some(list) =>
      var start := p + |EncodeUleb(t.length)|;
      && Holds(m, p, EncodeUleb(t.length)) && LsdasWritten(m, start, encoding, list, t.lsdas, r)
      && r <= q == start + t.length
  }

  /** The parser reads all targets of the FDE, and nothing else is in its data. */
  predicate ReadsAll(items: Option<seq<Augment>>, t: FdeText, r: int, q: int) {
    NoLateLsda(ItemsOf(items), t.length) && r == q
  }

  /** What the parser makes of the part behind the range. */
  predicate RestFound(found: Outcome<(Fde, Option<u64>)>, fde: Fde, items: Option<seq<Augment>>, t: FdeText, r: int,
                      q: int) {
    && found.Ok?
    && var (parsed, own) := found.value;
       && parsed == fde.(instructions := parsed.instructions)
       && (parsed.instructions == q <==> ReadsAll(items, t, r, q))
       && own == LastOf(None, Seen(ItemsOf(items), t.length, t.lsdas))
  }

  /**
   An FDE reads back as the fields it was written from.  Its instructions are found if and only if
   no 'L' stands behind the first `length` characters and the data ends with the last target; an
   augmentation without 'L' and data of length 0 is such a case.
   */
  lemma {:induction false} FdeRead(m: Mem, sec: Section, extent: Extent, cie: Cie, items: Option<seq<Augment>>,
                                   t: FdeText, r: int, q: int)
    requires CieOf(m, sec, extent.payloadStart) == Ok(cie) && FdeWritten(m, extent.payloadStart, cie, items, t, r, q)
    ensures RestFound(FdeFields(m, sec, extent), Fde(extent, t.pcBegin, t.pcRange, 0, 0, cie), items, t, r, q)
  {
    var p1, p2 :| Between(m, extent.payloadStart, cie, items, t, p1, p2, r, q);
    var plain := Fde(extent, t.pcBegin, t.pcRange, 0, 0, cie);
    RangeRead(m, extent.payloadStart, cie, items, t, p1, p2, r, q);
    ToRest(m, sec, extent, cie, t, p2);
    RestBetween(m, plain, extent.payloadStart, items, t, p1, p2, r, q);
  }

  /** The parser reads the range of the text, and goes on at q. */
  predicate RangeIs(m: Mem, p: int, cie: Cie, t: FdeText, q: int) {
    Range(m, p + 4, cie.pointerEncoding) == Ok(((t.pcBegin, t.pcRange), q))
  }

  /** The range leads to the part behind it. */
  lemma {:induction false} ToRest(m: Mem, sec: Section, extent: Extent, cie: Cie, t: FdeText, q: int)
    requires CieOf(m, sec, extent.payloadStart) == Ok(cie) && RangeIs(m, extent.payloadStart, cie, t, q)
    ensures FdeFields(m, sec, extent) == FdeRest(m, Fde(extent, t.pcBegin, t.pcRange, 0, 0, cie), q)
  {
    FdeParts(m, sec, extent, cie, (t.pcBegin, t.pcRange), q);
    BehindRange(m, sec, extent, Fde(extent, t.pcBegin, t.pcRange, 0, 0, cie), q);
  }

  lemma {:induction false} FdeParts(m: Mem, sec: Section, extent: Extent, cie: Cie, range: (u64, u64), q: int)
    requires CieOf(m, sec, extent.payloadStart) == Ok(cie)
    requires Range(m, extent.payloadStart + 4, cie.pointerEncoding) == Ok((range, q))
    ensures FdeRange(m, sec, extent) == Ok((Fde(extent, range.0, range.1, 0, 0, cie), q))
  {
    RangeFollows(m, extent, cie, range, q);
  }

  lemma {:induction false} RangeFollows(m: Mem, extent: Extent, cie: Cie, range: (u64, u64), q: int)
    requires Range(m, extent.payloadStart + 4, cie.pointerEncoding) == Ok((range, q))
    ensures RangeWith(m, extent, Ok(cie)) == Ok((Fde(extent, range.0, range.1, 0, 0, cie), q))
  {
  }

  lemma {:induction false} BehindRange(m: Mem, sec: Section, extent: Extent, fde: Fde, q: int)
    requires FdeRange(m, sec, extent) == Ok((fde, q))
    ensures FdeFields(m, sec, extent) == FdeRest(m, fde, q)
  {
  }

  lemma {:induction false} RestRead(m: Mem, fde: Fde, p: int, items: Option<seq<Augment>>, t: FdeText, r: int, q: int)
    requires fde.cie.lsdaEncoding < 256 && RestWritten(m, p, fde.cie.lsdaEncoding, items, t, r, q)
    requires fde.instructions == 0 && Holds(m, fde.cie.augmentation, Augmentation(items) + [0])
    ensures RestFound(FdeRest(m, fde, p), fde, items, t, r, q)
  {
    if items.Some? {
      var start := p + |EncodeUleb(t.length)|;
      UlebRoundTrip(m, p, t.length);
      StringOfItems(m, fde.cie.augmentation, items.value);
      LsdasRead(m, fde.cie, fde.cie.lsdaEncoding, t.length, 1, start, items.value, None, t.lsdas, r);
      LongFde(m, fde, p, t.length, start);
      FoundRest(FdeAugmentation(m, fde.cie, t.length, 1, start, None), fde, items, t, r, q);
    } else {
      HoldsAt(m, fde.cie.augmentation, Augmentation(items) + [0], 0);
    }
  }

  lemma {:induction false} FoundRest(found: Outcome<(Option<u64>, int)>, fde: Fde, items: Option<seq<Augment>>,
                                     t: FdeText, r: int, q: int)
    requires r <= q && LsdasFound(found, NoLateLsda(ItemsOf(items), t.length),
                                  LastOf(None, Seen(ItemsOf(items), t.length, t.lsdas)), r)
    ensures RestFound(Ok((fde.(instructions := found.value.1), found.value.0)), fde, items, t, r, q)
  {
  }

  lemma {:induction false} RangeRead(m: Mem, p: int, cie: Cie, items: Option<seq<Augment>>, t: FdeText, p1: int,
                                     p2: int, r: int, q: int)
    requires cie.pointerEncoding < 256 && cie.lsdaEncoding < 256 && Between(m, p, cie, items, t, p1, p2, r, q)
    ensures RangeIs(m, p, cie, t, p2)
  {
    PointerRead(m, p + 4, t.pcBegin, cie.pointerEncoding, p1);
    PointerRead(m, p1, t.pcRange, cie.pointerEncoding % 16, p2);
  }

  lemma {:induction false} RestBetween(m: Mem, fde: Fde, p: int, items: Option<seq<Augment>>, t: FdeText, p1: int,
                                       p2: int, r: int, q: int)
    requires fde.cie.pointerEncoding < 256 && fde.cie.lsdaEncoding < 256
    requires Between(m, p, fde.cie, items, t, p1, p2, r, q)
    requires fde.instructions == 0 && Holds(m, fde.cie.augmentation, Augmentation(items) + [0])
    ensures RestFound(FdeRest(m, fde, p2), fde, items, t, r, q)
  {
    RestRead(m, fde, p2, items, t, r, q);
  }

  /** The parser sees all targets of an FDE exactly if no 'L' is late. */
  lemma {:induction false} FdeSeen(m: Mem, p: int, cie: Cie, items: Option<seq<Augment>>, t: FdeText, r: int, q: int)
    requires FdeWritten(m, p, cie, items, t, r, q)
    ensures var seen := Seen(ItemsOf(items), t.length, t.lsdas);
            seen <= t.lsdas && (seen == t.lsdas <==> NoLateLsda(ItemsOf(items), t.length))
  {
    var p1, p2 :| Between(m, p, cie, items, t, p1, p2, r, q);
    if items.Some? {
      SeenIsPrefix(m, p2 + |EncodeUleb(t.length)|, cie.lsdaEncoding, items.value, t.length, t.lsdas, r);
    }
  }

  /** The parser's steps on an FDE with augmentation data. */
  lemma {:induction false} LongFde(m: Mem, fde: Fde, p: int, length: u64, p': int)
    requires Read8(m, fde.cie.augmentation) == Ok('z' as int) && Uleb(m, p) == Ok((length, p'))
    requires FdeAugmentation(m, fde.cie, length, 1, p', None).Ok?
    ensures var found := FdeAugmentation(m, fde.cie, length, 1, p', None).value;
            FdeRest(m, fde, p) == Ok((fde.(instructions := found.1), found.0))
  {
  }

  /**
   The augmentation "zRL" with a target of one byte at p + 1: the length 1 ends the loop in front
   of the 'L', and the target is taken for the first instruction.
   */
  lemma {:induction false} LateLsdaMissed(m: Mem, fde: Fde, items: seq<Augment>, t: FdeText, p: int, target: byte)
    requires items == [PointerEncoding(1), LsdaEncoding(1)]
    requires Holds(m, fde.cie.augmentation, Augmentation(Some(items)) + [0])
    requires fde.cie.lsdaEncoding == 1 && fde.instructions == 0
    requires t.length == 1 && t.lsdas == [target] && Read8(m, p) == Ok(1) && Read8(m, p + 1) == Ok(target)
    requires target < 128
    ensures RestWritten(m, p, fde.cie.lsdaEncoding, Some(items), t, p + 2, p + 2)
    ensures FdeRest(m, fde, p).Ok? && FdeRest(m, fde, p).value.0.instructions != p + 2
  {
    ShortNumber(m, p, t.length);
    ShortPointer(m, p + 1, target, fde.cie.lsdaEncoding);
    TwoItems(m, p + 1, fde.cie.lsdaEncoding, items, t.lsdas, p + 2);
    RestRead(m, fde, p, Some(items), t, p + 2, p + 2);
    assert items[1].LsdaEncoding?;
  }

  lemma {:induction false} ShortNumber(m: Mem, p: int, v: nat)
    requires v < 128 && Read8(m, p) == Ok(v)
    ensures |EncodeUleb(v)| == 1 && Holds(m, p, EncodeUleb(v))
  {
    assert EncodeUleb(v) == [v];
  }

  lemma {:induction false} ShortPointer(m: Mem, p: int, target: byte, encoding: u64)
    requires target < 128 && Read8(m, p) == Ok(target) && encoding == 1
    ensures PointerWritten(m, p, target, encoding, p + 1)
  {
    ShortNumber(m, p, target);
  }

  lemma {:induction false} TwoItems(m: Mem, p: int, encoding: byte, items: seq<Augment>, lsdas: seq<u64>, r: int)
    requires |items| == 2 && items[0].PointerEncoding? && items[1].LsdaEncoding? && |lsdas| == 1
    requires PointerWritten(m, p, lsdas[0], encoding, r)
    ensures LsdasWritten(m, p, encoding, items, lsdas, r)
  {
    assert LsdasWritten(m, r, encoding, items[1..][1..], lsdas[1..], r);
    assert LsdasWritten(m, p, encoding, items[1..], lsdas, r);
  }
}
