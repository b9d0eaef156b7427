/**
 The .eh_frame section (section 10.6 of the LSB Core Specification): variable-length records
 that are common information entries (CIEs) or frame description entries (FDEs), the pointer
 encodings they use, the walk over a section, and the lookup of the FDE that covers a pc.
 */
module EhFrame {
  import opened Words
  import opened Memory
  import opened Leb128

  const PE_OMIT: int := 0xFF

  /** decode_pointer: the pointer at p and the address behind it. */
  function DecodePointer(m: Mem, p: int, encoding: u64): Outcome<(u64, int)> {
    if encoding == PE_OMIT then Ok((0, p))
    else
      var high, low := (encoding / 16) % 8, encoding % 16;
      if high >= 2 then Abort else DecodeFormat(m, p, if high == 1 then Wrap(p) else 0, low)
  }

  /** Its second switch: the word at p in this format, added to the base. */
  function DecodeFormat(m: Mem, p: int, base: u64, low: nat): Outcome<(u64, int)> {
    if low == 1 then
      var (word, q) :- Uleb(m, p);
      Ok((Wrap(base + word), q))
    else if low == 9 then
      var (word, q) :- Sleb(m, p);
      var sum :- AddOffset(base, word);
      Ok((sum, q))
    else if low in {0, 2, 3, 4} then
      var width := FixedWidth(low);
      var word :- ReadWord(m, p, width);
      Ok((Wrap(base + word), p + width))
    else if low in {0xA, 0xB, 0xC} then
      var width := FixedWidth(low - 8);
      var word :- ReadWord(m, p, width);
      var sum :- AddOffset(base, SignExtend(word, width));
      Ok((sum, p + width))
    else Abort
  }

  function FixedWidth(format: nat): (w: nat)
    requires format in {0, 2, 3, 4}
    ensures w in {2, 4, 8}
  {
    if format == 2 then 2 else if format == 3 then 4 else 8
  }

  /////////////////////////////////////////////////////////////////////////////
  // Records
  /////////////////////////////////////////////////////////////////////////////

  datatype Section = Section(addr: u64, size: u64) {
    function Limit(): int {
      addr + size
    }
  }

  /** common_entry: where a record lies.  An entry whose start is null stands for no record. */
  datatype Extent = Extent(isCie: bool, start: int, end: int, payloadStart: int, payloadEnd: int) {
    predicate Exists() {
      start != 0
    }
  }

  const NO_EXTENT := Extent(false, 0, 0, 0, 0)

  /** common_entry::non_virtual_parse. */
  function ParseExtent(m: Mem, sec: Section, addr: int): (r: Outcome<Extent>)
    ensures r.Ok? && r.value.Exists() ==>
              && r.value.start == addr >= sec.addr
              && addr + 4 <= r.value.payloadStart < r.value.payloadEnd == r.value.end <= sec.Limit()
  {
    if addr == 0 || addr < sec.addr then Ok(NO_EXTENT)
    else
      var first :- Read32(m, addr);
      var length :- if first != 0xFFFF_FFFF then Ok(first) else Read64(m, addr + 4);
      var payload := if first != 0xFFFF_FFFF then addr + 4 else addr + 12;
      if length == 0 then Ok(NO_EXTENT)
      else if payload + length >= TWO64 then Fault
      else if payload + length > sec.Limit() then Ok(NO_EXTENT)
      else
        var id :- Read32(m, payload);
        Ok(Extent(id == 0, addr, payload + length, payload, payload + length))
  }

  /** ci_entry. */
  datatype Cie = Cie(
    extent: Extent,
    augmentation: int,
    codeAlignment: u64,
    dataAlignment: u64,
    returnRegister: u64,
    pointerEncoding: u64,
    lsdaEncoding: u64,
    personalityEncoding: u64,
    personality: u64,
    instructions: int)

  function EmptyCie(extent: Extent): Cie {
    Cie(extent, 0, 0, 0, 0, 0, 0, 0, 0, 0)
  }

  ghost function MappedFrom(m: Mem, p: int): set<int> {
    set q | q in m && q >= p
  }

  lemma {:induction false} MappedFromShrinks(m: Mem, p: int)
    requires p in m
    ensures MappedFrom(m, p + 1) < MappedFrom(m, p)
  {
    assert p in MappedFrom(m, p) && p !in MappedFrom(m, p + 1);
  }

  /** The address behind the next zero byte. */
  function SkipString(m: Mem, p: int): Outcome<int>
    decreases MappedFrom(m, p)
  {
    var c :- Read8(m, p);
    if c == 0 then Ok(p + 1)
    else
      MappedFromShrinks(m, p);
      SkipString(m, p + 1)
  }

  /** The augmentation loop of a CIE, from character i on, with the cursor at p. */
  function CieAugmentation(m: Mem, cie: Cie, length: u64, i: nat, p: int): (r: Outcome<(Cie, int)>)
    ensures r.Ok? ==> r.value.0.extent == cie.extent
    decreases length + 1 - i
  {
    if i > length then Ok((cie, p))
    else
      var c :- Read8(m, cie.augmentation + i);
      if c == 0 then Ok((cie, p))
      else if c == 'L' as int then
        var encoding :- Read8(m, p);
        CieAugmentation(m, cie.(lsdaEncoding := encoding), length, i + 1, p + 1)
      else if c == 'P' as int then
        var encoding :- Read8(m, p);
        var (pointer, q) :- DecodePointer(m, p + 1, encoding);
        CieAugmentation(m, cie.(personalityEncoding := encoding, personality := pointer), length, i + 1, q)
      else if c == 'R' as int then
        var encoding :- Read8(m, p);
        CieAugmentation(m, cie.(pointerEncoding := encoding), length, i + 1, p + 1)
      else Abort
  }

  /** ci_entry::non_virtual_parse on a fresh object. */
  function ParseCie(m: Mem, sec: Section, addr: int): Outcome<Cie> {
    var extent :- ParseExtent(m, sec, addr);
    if !extent.Exists() || !extent.isCie then Ok(EmptyCie(extent)) else CieFields(m, extent)
  }

  /** A record that is no CIE gives an FDE that points to it neither personality routine nor alignments. */
  lemma {:induction false} NoCieParsed(m: Mem, sec: Section, addr: int, extent: Extent)
    requires ParseExtent(m, sec, addr) == Ok(extent) && (!extent.isCie || !extent.Exists())
    ensures ParseCie(m, sec, addr) == Ok(Cie(extent, 0, 0, 0, 0, 0, 0, 0, 0, 0))
  {
  }

  /** The augmentation string, the numbers behind it, and the augmentation data. */
  function CieFields(m: Mem, extent: Extent): (r: Outcome<Cie>)
    ensures r.Ok? ==> r.value.extent == extent
  {
    var augmentation := extent.payloadStart + 5;
    var c :- Read8(m, augmentation);
    var p :- SkipString(m, augmentation);
    var (cie, q) :- CieNumbers(m, EmptyCie(extent).(augmentation := augmentation), p);
    CieRest(m, cie, c, q)
  }

  /** The augmentation data, if the string begins with a 'z', and the start of the instructions. */
  function CieRest(m: Mem, cie: Cie, c: byte, p: int): (r: Outcome<Cie>)
    ensures r.Ok? ==> r.value.extent == cie.extent
  {
    if c != 'z' as int then Ok(cie.(instructions := p))
    else
      var (length, p') :- Uleb(m, p);
      var (cie', q) :- CieAugmentation(m, cie, length, 1, p');
      Ok(cie'.(instructions := q))
  }

  function CieNumbers(m: Mem, cie: Cie, p: int): (r: Outcome<(Cie, int)>)
    ensures r.Ok? ==> r.value.0.extent == cie.extent
  {
    var (codeAlignment, p1) :- Uleb(m, p);
    var (dataAlignment, p2) :- Sleb(m, p1);
    var (returnRegister, p3) :- Uleb(m, p2);
    Ok((cie.(codeAlignment := codeAlignment, dataAlignment := dataAlignment, returnRegister := returnRegister), p3))
  }

  /** fd_entry. */
  datatype Fde = Fde(extent: Extent, pcBegin: u64, pcRange: u64, lsda: u64, instructions: int, cie: Cie) {
    predicate Exists() {
      extent.Exists()
    }

    /** is_in_range: the pc behind a call lies in (begin, begin + range]. */
    predicate Covers(pc: u64) {
      pc > pcBegin && pc <= Wrap(pcBegin + pcRange)
    }
  }

  const NO_FDE := Fde(NO_EXTENT, 0, 0, 0, 0, EmptyCie(NO_EXTENT))

  /** The augmentation loop of an FDE: the language-specific data pointer, if one is given. */
  function FdeAugmentation(m: Mem, cie: Cie, length: u64, i: nat, p: int,
                           lsda: Option<u64>): Outcome<(Option<u64>, int)>
    decreases length + 1 - i
  {
    var c :- Read8(m, cie.augmentation + i);
    if c == 0 || i > length then Ok((lsda, p))
    else if c == 'L' as int then
      var (pointer, q) :- DecodePointer(m, p, cie.lsdaEncoding);
      FdeAugmentation(m, cie, length, i + 1, q, Some(pointer))
    else if c == 'P' as int || c == 'R' as int then FdeAugmentation(m, cie, length, i + 1, p, lsda)
    else Abort
  }

  /** What an FDE record itself says: its fields, and its language-specific data if it has any. */
  function FdeFields(m: Mem, sec: Section, extent: Extent): (r: Outcome<(Fde, Option<u64>)>)
    ensures r.Ok? ==> r.value.0.extent == extent
  {
    var (fde, p) :- FdeRange(m, sec, extent);
    FdeRest(m, fde, p)
  }

  /** The part behind the range: the augmentation data, if there is any. */
  function FdeRest(m: Mem, fde: Fde, p: int): (r: Outcome<(Fde, Option<u64>)>)
    ensures r.Ok? ==> r.value.0.extent == fde.extent
  {
    var c :- Read8(m, fde.cie.augmentation);
    if c != 'z' as int then Ok((fde.(instructions := p), None))
    else
      var (length, p') :- Uleb(m, p);
      var (lsda, p'') :- FdeAugmentation(m, fde.cie, length, 1, p', None);
      Ok((fde.(instructions := p''), lsda))
  }

  /** The CIE that the first word of an FDE points back to. */
  function CieOf(m: Mem, sec: Section, p: int): Outcome<Cie> {
    var back :- Read32(m, p);
    ParseCie(m, sec, Wrap(p - back))
  }

  /** pc_begin and pc_range; the second is encoded without a base. */
  function Range(m: Mem, p: int, encoding: u64): Outcome<((u64, u64), int)> {
    var (pcBegin, q) :- DecodePointer(m, p, encoding);
    var (pcRange, q') :- DecodePointer(m, q, encoding % 16);
    Ok(((pcBegin, pcRange), q'))
  }

  /** Its CIE and the range of the function. */
  function FdeRange(m: Mem, sec: Section, extent: Extent): (r: Outcome<(Fde, int)>)
    ensures r.Ok? ==> r.value.0.extent == extent
  {
    RangeWith(m, extent, CieOf(m, sec, extent.payloadStart))
  }

  function RangeWith(m: Mem, extent: Extent, parsed: Outcome<Cie>): (r: Outcome<(Fde, int)>)
    ensures r.Ok? ==> r.value.0.extent == extent
  {
    var cie :- parsed;
    var (range, q) :- Range(m, extent.payloadStart + 4, cie.pointerEncoding);
    Ok((Fde(extent, range.0, range.1, 0, 0, cie), q))
  }

  /**
   fd_entry::non_virtual_parse on an object that held `prior` before.  The parser assigns m_lsda
   only when the augmentation has an 'L'; a CIE or a failed parse leaves all other fields.
   */
  function ParseFde(m: Mem, sec: Section, prior: Fde, addr: int): (r: Outcome<Fde>)
    ensures r.Ok? && r.value.Exists() ==>
              && r.value.extent.start == addr >= sec.addr
              && addr + 4 < r.value.extent.end <= sec.Limit()
  {
    var extent :- ParseExtent(m, sec, addr);
    if !extent.Exists() || extent.isCie then Ok(prior.(extent := extent))
    else
      var (fde, lsda) :- FdeFields(m, sec, extent);
      Ok(fde.(lsda := if lsda.Some? then lsda.value else prior.lsda))
  }

  /////////////////////////////////////////////////////////////////////////////
  // The walk
  /////////////////////////////////////////////////////////////////////////////

  /** Where operator++ parses next; null behind the last record. */
  function NextAddress(sec: Section, extent: Extent): int {
    if extent.end + 4 < sec.Limit() then extent.end else 0
  }

  /** operator++ on an existing entry. */
  function NextFde(m: Mem, sec: Section, fde: Fde): (r: Outcome<Fde>)
    requires fde.Exists()
    ensures r.Ok? && r.value.Exists() && fde.extent.end > fde.extent.start ==>
              fde.extent.start < r.value.extent.start < sec.Limit()
  {
    ParseFde(m, sec, fde, NextAddress(sec, fde.extent))
  }

  function FirstFde(m: Mem, sec: Section): Outcome<Fde> {
    ParseFde(m, sec, NO_FDE, sec.addr)
  }

  /** An entry that a parse of this section can have produced. */
  predicate InSection(sec: Section, fde: Fde) {
    fde.Exists() ==> fde.extent.start < fde.extent.end <= sec.Limit()
  }

  /**
   The entries that a walk from `fde` on meets, in order: each exists but perhaps the last, and is
   followed by the one that operator++ makes of it.  The walk need not have come to its end.
   */
  predicate WalkedFrom(m: Mem, sec: Section, fde: Fde, fdes: seq<Fde>) {
    && fdes != [] && fdes[0] == fde
    && forall k | 0 <= k < |fdes| - 1 :: NextInWalk(m, sec, fdes, k)
  }

  predicate NextInWalk(m: Mem, sec: Section, fdes: seq<Fde>, k: nat)
    requires k + 1 < |fdes|
  {
    fdes[k].Exists() && NextFde(m, sec, fdes[k]) == Ok(fdes[k + 1])
  }

  /** The loop of find_fde, from `fde` on. */
  function FindFrom(m: Mem, sec: Section, fde: Fde, pc: u64): (r: Outcome<Fde>)
    requires InSection(sec, fde)
    ensures r.Ok? && r.value.Exists() ==> !r.value.extent.isCie && r.value.Covers(pc)
    decreases if fde.Exists() then sec.Limit() - fde.extent.start + 1 else 0
  {
    if !fde.Exists() then Ok(NO_FDE)
    else if !fde.extent.isCie && fde.Covers(pc) then Ok(fde)
    else
      var next :- NextFde(m, sec, fde);
      FindFrom(m, sec, next, pc)
  }

  /** eh_frame::find_fde, for the one module the source knows. */
  function FindFde(m: Mem, sec: Section, pc: u64): (r: Outcome<Fde>)
    ensures r.Ok? && r.value.Exists() ==> !r.value.extent.isCie && r.value.Covers(pc)
  {
    var first :- FirstFde(m, sec);
    FindFrom(m, sec, first, pc)
  }

  predicate Answers(fde: Fde, pc: u64) {
    !fde.extent.isCie && fde.Covers(pc)
  }

  /** A walk over entries none of which answers for pc, up to one that does, or to the end of the section. */
  predicate FirstAnswer(m: Mem, sec: Section, fde: Fde, pc: u64, fdes: seq<Fde>, r: Fde) {
    && WalkedFrom(m, sec, fde, fdes)
    && (forall k | 0 <= k < |fdes| - 1 :: !Answers(fdes[k], pc))
    && var last := fdes[|fdes| - 1];
       if last.Exists() then Answers(last, pc) && r == last else r == NO_FDE
  }

  lemma {:induction false} WalkOn(m: Mem, sec: Section, fde: Fde, next: Fde, rest: seq<Fde>)
    requires fde.Exists() && NextFde(m, sec, fde) == Ok(next) && WalkedFrom(m, sec, next, rest)
    ensures WalkedFrom(m, sec, fde, [fde] + rest)
  {
    var fdes := [fde] + rest;
    forall k | 0 <= k < |fdes| - 1
      ensures NextInWalk(m, sec, fdes, k)
    {
      if k > 0 {
        assert NextInWalk(m, sec, rest, k - 1);
      }
    }
  }

  lemma {:induction false} WalkRest(m: Mem, sec: Section, fde: Fde, fdes: seq<Fde>)
    requires WalkedFrom(m, sec, fde, fdes) && |fdes| > 1
    ensures fde.Exists() && NextFde(m, sec, fde) == Ok(fdes[1]) && WalkedFrom(m, sec, fdes[1], fdes[1..])
  {
    assert NextInWalk(m, sec, fdes, 0);
    var rest := fdes[1..];
    forall k | 0 <= k < |rest| - 1
      ensures NextInWalk(m, sec, rest, k)
    {
      assert NextInWalk(m, sec, fdes, k + 1);
    }
  }

  /**
   find_fde answers with the first entry of the walk that fits, or with none at the end of the
   section: with r if and only if there is such a walk to r.  What lies behind the answer is
   never read.
   */
  lemma {:induction false} FindIsFirstAnswer(m: Mem, sec: Section, fde: Fde, pc: u64, r: Fde)
    requires InSection(sec, fde)
    ensures FindFrom(m, sec, fde, pc) == Ok(r) <==> exists fdes :: FirstAnswer(m, sec, fde, pc, fdes, r)
  {
    if FindFrom(m, sec, fde, pc) == Ok(r) {
      var fdes := AnswerFound(m, sec, fde, pc, r);
    }
    if fdes :| FirstAnswer(m, sec, fde, pc, fdes, r) {
      AnswerReached(m, sec, fde, pc, fdes, r);
    }
  }

  lemma {:induction false} AnswerFound(m: Mem, sec: Section, fde: Fde, pc: u64, r: Fde) returns (fdes: seq<Fde>)
    requires InSection(sec, fde) && FindFrom(m, sec, fde, pc) == Ok(r)
    ensures FirstAnswer(m, sec, fde, pc, fdes, r)
    decreases if fde.Exists() then sec.Limit() - fde.extent.start + 1 else 0
  {
    if !fde.Exists() || Answers(fde, pc) {
      fdes := [fde];
    } else {
      var next := NextFde(m, sec, fde).value;
      var rest := AnswerFound(m, sec, next, pc, r);
      fdes := [fde] + rest;
      AnswerBehind(m, sec, fde, next, pc, rest, r);
    }
  }

  lemma {:induction false} AnswerBehind(m: Mem, sec: Section, fde: Fde, next: Fde, pc: u64, rest: seq<Fde>, r: Fde)
    requires fde.Exists() && !Answers(fde, pc) && NextFde(m, sec, fde) == Ok(next)
    requires FirstAnswer(m, sec, next, pc, rest, r)
    ensures FirstAnswer(m, sec, fde, pc, [fde] + rest, r)
  {
    WalkOn(m, sec, fde, next, rest);
    var fdes := [fde] + rest;
    forall k | 0 <= k < |fdes| - 1
      ensures !Answers(fdes[k], pc)
    {
      if k > 0 {
        assert fdes[k] == rest[k - 1];
      }
    }
  }

  lemma {:induction false} AnswerReached(m: Mem, sec: Section, fde: Fde, pc: u64, fdes: seq<Fde>, r: Fde)
    requires InSection(sec, fde) && FirstAnswer(m, sec, fde, pc, fdes, r)
    ensures FindFrom(m, sec, fde, pc) == Ok(r)
    decreases |fdes|
  {
    if |fdes| > 1 {
      WalkRest(m, sec, fde, fdes);
      assert !Answers(fdes[0], pc);
      assert forall k | 0 <= k < |fdes| - 2 :: fdes[1..][k] == fdes[k + 1];
      AnswerReached(m, sec, fdes[1], pc, fdes[1..], r);
    }
  }

  /** However far a walk gets, it meets its entries in strictly increasing order, all of them inside the section. */
  lemma {:induction false} WalkIncreases(m: Mem, sec: Section, fde: Fde, fdes: seq<Fde>)
    requires InSection(sec, fde) && WalkedFrom(m, sec, fde, fdes)
    ensures forall k | 0 <= k < |fdes| && fdes[k].Exists() :: fdes[k].extent.start < fdes[k].extent.end <= sec.Limit()
    ensures forall j, k | 0 <= j < k < |fdes| && fdes[k].Exists() :: fdes[j].extent.end <= fdes[k].extent.start
    decreases |fdes|
  {
    if |fdes| > 1 {
      WalkRest(m, sec, fde, fdes);
      var rest := fdes[1..];
      WalkIncreases(m, sec, fdes[1], rest);
      forall k | 0 < k < |fdes| && fdes[k].Exists()
        ensures fdes[0].extent.end <= fdes[k].extent.start < fdes[k].extent.end <= sec.Limit()
      {
        assert fdes[k] == rest[k - 1];
        if k > 1 {
          assert NextInWalk(m, sec, fdes, 1);
          assert rest[0].extent.end <= rest[k - 1].extent.start;
        }
      }
      forall j, k | 0 < j < k < |fdes| && fdes[k].Exists()
        ensures fdes[j].extent.end <= fdes[k].extent.start
      {
        assert fdes[k] == rest[k - 1] && fdes[j] == rest[j - 1];
      }
    }
  }

  /** The entry a fresh fd_entry object at addr would hold. */
  function FreshFde(m: Mem, sec: Section, addr: int): Outcome<Fde> {
    ParseFde(m, sec, NO_FDE, addr)
  }

  /** The language-specific data a record gives of its own; a CIE gives none. */
  function OwnLsda(m: Mem, sec: Section, extent: Extent): Option<u64> {
    if extent.isCie then None
    else
      match FdeFields(m, sec, extent)
      case Ok((_, lsda)) => lsda
      case _ => None
  }

  /**
   The walk re-uses one object, and what the object held before shows through in m_lsda only:
   an FDE found by the walk is the FDE a fresh parse gives if and only if its record has
   language-specific data of its own or the entry before it left none.
   */
  lemma {:induction false} StaleLsda(m: Mem, sec: Section, prior: Fde, addr: int)
    requires FreshFde(m, sec, addr).Ok?
    ensures ParseFde(m, sec, prior, addr).Ok?
    ensures var clean, walked := FreshFde(m, sec, addr).value, ParseFde(m, sec, prior, addr).value;
            && walked.extent == clean.extent
            && (walked.Exists() && !walked.extent.isCie ==>
                  && (walked == clean <==> OwnLsda(m, sec, walked.extent).Some? || prior.lsda == 0)
                  && walked == clean.(lsda := GetOr(OwnLsda(m, sec, walked.extent), prior.lsda)))
  {
  }

  function GetOr(own: Option<u64>, before: u64): u64 {
    match own
    case Some(lsda) => lsda
    case None => before
  }

  /** What entry k of a walk carries: its own data, or else whatever the entry before carried. */
  predicate Carries(m: Mem, sec: Section, before: u64, fde: Fde) {
    fde.lsda == GetOr(OwnLsda(m, sec, fde.extent), before)
  }

  lemma {:induction false} ParseCarries(m: Mem, sec: Section, prior: Fde, addr: int)
    requires ParseFde(m, sec, prior, addr).Ok? && ParseFde(m, sec, prior, addr).value.Exists()
    ensures Carries(m, sec, prior.lsda, ParseFde(m, sec, prior, addr).value)
  {
    var extent := ParseExtent(m, sec, addr).value;
    if !extent.isCie {
      var (fields, own) := FdeFields(m, sec, extent).value;
      assert OwnLsda(m, sec, extent) == own;
    }
  }

  /** Over any walk from the start of the section, each entry carries its own data or that of the entry before. */
  lemma {:induction false} CarriedLsda(m: Mem, sec: Section, fde: Fde, fdes: seq<Fde>)
    requires FirstFde(m, sec) == Ok(fde) && WalkedFrom(m, sec, fde, fdes)
    ensures fde.Exists() ==> Carries(m, sec, 0, fde)
    ensures forall k | 0 < k < |fdes| && fdes[k].Exists() :: Carries(m, sec, fdes[k - 1].lsda, fdes[k])
  {
    if fde.Exists() {
      ParseCarries(m, sec, NO_FDE, sec.addr);
    }
    forall k | 0 < k < |fdes| && fdes[k].Exists()
      ensures Carries(m, sec, fdes[k - 1].lsda, fdes[k])
    {
      assert NextInWalk(m, sec, fdes, k - 1);
      ParseCarries(m, sec, fdes[k - 1], NextAddress(sec, fdes[k - 1].extent));
    }
  }
}
