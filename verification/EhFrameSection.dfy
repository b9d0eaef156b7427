/**
 Sections written by a serialiser: the walk of module EhFrame visits exactly the records that
 were written, in order, whatever mix of 4-byte and extended length fields they use and
 whether or not a zero terminator follows; and find_fde answers with the first of the FDEs whose
 range holds the pc.
 */
module EhFrameSection {
  import opened Words
  import opened Memory
  import opened EhFrame
  import opened EhFrameRecords

  datatype Record = Record(extended: bool, payload: seq<byte>)

  predicate Encodable(r: Record) {
    0 < |r.payload| && |r.payload| < (if r.extended then TWO64 else 0xFFFF_FFFF)
  }

  function Header(r: Record): (bs: seq<byte>)
    requires Encodable(r)
    ensures |bs| == if r.extended then 12 else 4
  {
    if r.extended then LeBytes(0xFFFF_FFFF, 4) + LeBytes(|r.payload|, 8) else LeBytes(|r.payload|, 4)
  }

  function RecordBytes(r: Record): (bs: seq<byte>)
    requires Encodable(r)
    ensures |bs| > 4
  {
    Header(r) + r.payload
  }

  function SectionBytes(rs: seq<Record>, terminated: bool): (bs: seq<byte>)
    requires forall r | r in rs :: Encodable(r)
    ensures rs != [] ==> |bs| > 4
    ensures rs == [] ==> |bs| == if terminated then 4 else 0
    decreases |rs|
  {
    if rs == [] then (if terminated then LeBytes(0, 4) else [])
    else RecordBytes(rs[0]) + SectionBytes(rs[1..], terminated)
  }

  /** The four bytes that tell a CIE from an FDE can be read, even behind a shorter payload. */
  predicate IdsMapped(m: Mem, rs: seq<Record>, p: int)
    requires forall r | r in rs :: Encodable(r)
    decreases |rs|
  {
    rs == [] || (Read32(m, p + |Header(rs[0])|).Ok? && IdsMapped(m, rs[1..], p + |RecordBytes(rs[0])|))
  }

  function ExtentOf(m: Mem, r: Record, p: int): Extent
    requires Encodable(r)
  {
    var payload := p + |Header(r)|;
    Extent(Read32(m, payload) == Ok(0), p, p + |RecordBytes(r)|, payload, p + |RecordBytes(r)|)
  }

  /** Where the records lie when they are written from p on. */
  function ExtentsOf(m: Mem, rs: seq<Record>, p: int): seq<Extent>
    requires forall r | r in rs :: Encodable(r)
    decreases |rs|
  {
    if rs == [] then [] else [ExtentOf(m, rs[0], p)] + ExtentsOf(m, rs[1..], p + |RecordBytes(rs[0])|)
  }

  /** The walk as common_entry sees it: only where the records lie. */
  function WalkExtents(m: Mem, sec: Section, extent: Extent): Outcome<seq<Extent>>
    requires extent.Exists() ==> extent.start < extent.end <= sec.Limit()
    decreases if extent.Exists() then sec.Limit() - extent.start + 1 else 0
  {
    if !extent.Exists() then Ok([])
    else
      var next :- ParseExtent(m, sec, NextAddress(sec, extent));
      var rest :- WalkExtents(m, sec, next);
      Ok([extent] + rest)
  }

  /** A record written at p parses to where it lies. */
  lemma {:induction false} RecordParses(m: Mem, sec: Section, r: Record, p: int)
    requires Encodable(r) && Holds(m, p, RecordBytes(r))
    requires p > 0 && p >= sec.addr && p + |RecordBytes(r)| <= sec.Limit() < TWO64
    requires Read32(m, p + |Header(r)|).Ok?
    ensures ParseExtent(m, sec, p) == Ok(ExtentOf(m, r, p))
  {
    HoldsConcat(m, p, Header(r), r.payload);
    if r.extended {
      HoldsConcat(m, p, LeBytes(0xFFFF_FFFF, 4), LeBytes(|r.payload|, 8));
      ReadStored32(m, p, 0xFFFF_FFFF);
      ReadStored64(m, p + 4, |r.payload|);
    } else {
      ReadStored32(m, p, |r.payload|);
    }
  }

  /** Each record parses to where it lies, and operator++ goes on to the next. */
  predicate Laid(m: Mem, sec: Section, extents: seq<Extent>) {
    forall k | 0 <= k < |extents| :: LaidAt(m, sec, extents, k)
  }

  predicate LaidAt(m: Mem, sec: Section, extents: seq<Extent>, k: nat)
    requires k < |extents|
  {
    && extents[k].Exists() && ParseExtent(m, sec, extents[k].start) == Ok(extents[k])
    && NextAddress(sec, extents[k]) == if k + 1 < |extents| then extents[k + 1].start else 0
  }

  lemma {:induction false} LaidBehind(m: Mem, sec: Section, first: Extent, rest: seq<Extent>)
    requires Laid(m, sec, rest) && first.Exists() && ParseExtent(m, sec, first.start) == Ok(first)
    requires NextAddress(sec, first) == if rest != [] then rest[0].start else 0
    ensures Laid(m, sec, [first] + rest)
  {
    var extents := [first] + rest;
    forall k | 0 <= k < |extents|
      ensures LaidAt(m, sec, extents, k)
    {
      if k > 0 {
        assert LaidAt(m, sec, rest, k - 1);
      }
    }
  }

  lemma {:induction false} RecordsLaid(m: Mem, sec: Section, rs: seq<Record>, terminated: bool, p: int)
    requires forall r | r in rs :: Encodable(r)
    requires IdsMapped(m, rs, p) && Holds(m, p, SectionBytes(rs, terminated))
    requires p > 0 && p >= sec.addr && p + |SectionBytes(rs, terminated)| == sec.Limit() < TWO64
    ensures Laid(m, sec, ExtentsOf(m, rs, p)) && |ExtentsOf(m, rs, p)| == |rs|
    ensures rs != [] ==> ExtentsOf(m, rs, p)[0].start == p
    decreases |rs|
  {
    if rs != [] {
      var next := p + |RecordBytes(rs[0])|;
      HoldsConcat(m, p, RecordBytes(rs[0]), SectionBytes(rs[1..], terminated));
      RecordParses(m, sec, rs[0], p);
      RecordsLaid(m, sec, rs[1..], terminated, next);
      assert NextAddress(sec, ExtentOf(m, rs[0], p)) == if |rs| > 1 then next else 0;
      LaidBehind(m, sec, ExtentOf(m, rs[0], p), ExtentsOf(m, rs[1..], next));
    }
  }

  lemma {:induction false} WalkLaid(m: Mem, sec: Section, extents: seq<Extent>, k: nat)
    requires Laid(m, sec, extents) && k < |extents|
    ensures extents[k].start < extents[k].end <= sec.Limit()
    ensures WalkExtents(m, sec, extents[k]) == Ok(extents[k..])
    decreases |extents| - k
  {
    assert LaidAt(m, sec, extents, k);
    if k + 1 < |extents| {
      assert LaidAt(m, sec, extents, k + 1);
      WalkLaid(m, sec, extents, k + 1);
      assert extents[k..] == [extents[k]] + extents[k + 1..];
    } else {
      assert ParseExtent(m, sec, 0) == Ok(NO_EXTENT) && WalkExtents(m, sec, NO_EXTENT) == Ok([]);
      assert [extents[k]] + [] == extents[k..];
    }
  }

  /** The bytes of the records fill the section. */
  ghost predicate Serialised(m: Mem, sec: Section, rs: seq<Record>, terminated: bool) {
    && (forall r | r in rs :: Encodable(r))
    && IdsMapped(m, rs, sec.addr) && (rs != [] || terminated)
    && Holds(m, sec.addr, SectionBytes(rs, terminated))
    && sec.addr > 0 && |SectionBytes(rs, terminated)| == sec.size && sec.Limit() < TWO64
  }

  /**
   The whole section: the walk that starts at the section's address meets exactly the records
   of any list, in order; the empty list needs its terminator to be recognised.
   */
  lemma {:induction false} SectionWalk(m: Mem, sec: Section, rs: seq<Record>, terminated: bool)
    requires Serialised(m, sec, rs, terminated)
    ensures ParseExtent(m, sec, sec.addr).Ok?
    ensures WalkExtents(m, sec, ParseExtent(m, sec, sec.addr).value) == Ok(ExtentsOf(m, rs, sec.addr))
  {
    if rs == [] {
      ReadStored32(m, sec.addr, 0);
    } else {
      RecordsLaid(m, sec, rs, terminated, sec.addr);
      var extents := ExtentsOf(m, rs, sec.addr);
      assert LaidAt(m, sec, extents, 0);
      WalkLaid(m, sec, extents, 0);
      assert extents[0..] == extents;
    }
  }

  /////////////////////////////////////////////////////////////////////////////
  // Records with contents
  /////////////////////////////////////////////////////////////////////////////

  /**
   What a record says: a CIE, or an FDE of the CIE with number `cie` in the list.  Instructions
   begin at the address given; the pointers of an FDE's augmentation data end at `dataEnd`.
   */
  datatype Text =
    | CieEntry(cieText: CieText, instructions: int)
    | FdeEntry(cie: nat, fdeText: FdeText, dataEnd: int, instructions: int)
  {
    predicate Covers(pc: u64) {
      FdeEntry? && pc > fdeText.pcBegin && pc <= Wrap(fdeText.pcBegin + fdeText.pcRange)
    }
  }

  /** The CIE that a text describes. */
  function CieAt(extent: Extent, text: Text): Cie
    requires text.CieEntry?
  {
    WithItems(Plain(extent, text.cieText), ItemsOf(text.cieText.items)).(instructions := text.instructions)
  }

  /** The payloads hold the texts, and the FDEs point back to their CIEs. */
  ghost predicate Described(m: Mem, extents: seq<Extent>, texts: seq<Text>) {
    |extents| == |texts| && forall k | 0 <= k < |texts| :: DescribedAt(m, extents, texts, k)
  }

  ghost predicate DescribedAt(m: Mem, extents: seq<Extent>, texts: seq<Text>, k: nat)
    requires k < |extents| == |texts|
  {
    var p := extents[k].payloadStart;
    match texts[k]
    case CieEntry(t, q) => extents[k].isCie && CieWritten(m, p, t, q)
    case FdeEntry(cie, t, r, q) =>
      && !extents[k].isCie && HasCie(texts, k) && PointsBack(m, p, extents[cie].start)
      && FdeWritten(m, p, CieAt(extents[cie], texts[cie]), texts[cie].cieText.items, t, r, q)
  }

  /** Text k is an FDE whose CIE is in the list. */
  predicate HasCie(texts: seq<Text>, k: nat)
    requires k < |texts|
  {
    texts[k].FdeEntry? && texts[k].cie < |texts| && texts[texts[k].cie].CieEntry?
  }

  predicate PointsBack(m: Mem, p: int, start: int) {
    Read32(m, p).Ok? && Wrap(p - Read32(m, p).value) == start
  }

  /** The items of an FDE's CIE. */
  function ItemsAt(texts: seq<Text>, k: nat): Option<seq<Augment>>
    requires k < |texts| && HasCie(texts, k)
  {
    texts[texts[k].cie].cieText.items
  }

  /**
   The language-specific data of text k itself: the last target that the parser sees.  It misses
   those of late 'L's, and there is none in a CIE.
   */
  function OwnAt(texts: seq<Text>, k: nat): Option<u64>
    requires k < |texts|
  {
    if HasCie(texts, k) then
      LastOf(None, Seen(ItemsOf(ItemsAt(texts, k)), texts[k].fdeText.length, texts[k].fdeText.lsdas))
    else None
  }

  /** The language-specific data that the walk carries at text k: that of the last FDE that has its own. */
  function CarriedAt(texts: seq<Text>, k: nat): u64
    requires k < |texts|
  {
    GetOr(OwnAt(texts, k), if k == 0 then 0 else CarriedAt(texts, k - 1))
  }

  /** Without late 'L's all targets are seen, and the last one counts. */
  lemma {:induction false} OwnInTime(m: Mem, extents: seq<Extent>, texts: seq<Text>, k: nat)
    requires Described(m, extents, texts) && k < |texts| && HasCie(texts, k)
    ensures var t, items := texts[k].fdeText, ItemsOf(ItemsAt(texts, k));
            && Seen(items, t.length, t.lsdas) <= t.lsdas
            && (Seen(items, t.length, t.lsdas) == t.lsdas <==> NoLateLsda(items, t.length))
            && (NoLateLsda(items, t.length) ==> OwnAt(texts, k) == LastOf(None, t.lsdas))
  {
    assert DescribedAt(m, extents, texts, k);
    var cie := CieAt(extents[texts[k].cie], texts[texts[k].cie]);
    FdeSeen(m, extents[k].payloadStart, cie, ItemsAt(texts, k), texts[k].fdeText, texts[k].dataEnd,
            texts[k].instructions);
  }

  /** The object of the walk at text k. */
  predicate EntryAt(extents: seq<Extent>, texts: seq<Text>, k: nat, fde: Fde)
    requires k < |extents| == |texts|
  {
    && fde.extent == extents[k]
    && (texts[k].FdeEntry? ==> HasCie(texts, k) && FdeAt(extents, texts, k, fde))
    && fde.lsda == CarriedAt(texts, k)
  }

  /** It has the fields of the text; the instructions are found if the parser reads all of its data. */
  predicate FdeAt(extents: seq<Extent>, texts: seq<Text>, k: nat, fde: Fde)
    requires k < |extents| == |texts| && HasCie(texts, k)
  {
    var t := texts[k].fdeText;
    && fde.pcBegin == t.pcBegin && fde.pcRange == t.pcRange
    && fde.cie == CieAt(extents[texts[k].cie], texts[texts[k].cie])
    && (fde.instructions == texts[k].instructions <==>
        ReadsAll(ItemsAt(texts, k), t, texts[k].dataEnd, texts[k].instructions))
  }

  lemma {:induction false} CieParses(m: Mem, sec: Section, extents: seq<Extent>, texts: seq<Text>, j: nat)
    requires Laid(m, sec, extents) && Described(m, extents, texts) && j < |texts| && texts[j].CieEntry?
    ensures ParseCie(m, sec, extents[j].start) == Ok(CieAt(extents[j], texts[j]))
  {
    assert LaidAt(m, sec, extents, j) && DescribedAt(m, extents, texts, j);
    CieRead(m, extents[j], texts[j].cieText, texts[j].instructions);
  }

  lemma {:induction false} CieFound(m: Mem, sec: Section, p: int, start: int, cie: Cie)
    requires PointsBack(m, p, start) && ParseCie(m, sec, start) == Ok(cie)
    ensures CieOf(m, sec, p) == Ok(cie)
  {
  }

  /** The fields of an FDE record are those of its text. */
  lemma {:induction false} FdeParses(m: Mem, sec: Section, extents: seq<Extent>, texts: seq<Text>, k: nat)
    requires Laid(m, sec, extents) && Described(m, extents, texts) && k < |texts| && texts[k].FdeEntry?
    ensures HasCie(texts, k) && !extents[k].isCie
    ensures var t, cie := texts[k].fdeText, texts[k].cie;
            RestFound(FdeFields(m, sec, extents[k]),
                      Fde(extents[k], t.pcBegin, t.pcRange, 0, 0, CieAt(extents[cie], texts[cie])),
                      ItemsAt(texts, k), t, texts[k].dataEnd, texts[k].instructions)
  {
    assert DescribedAt(m, extents, texts, k);
    var cie := texts[k].cie;
    CieParses(m, sec, extents, texts, cie);
    CieFound(m, sec, extents[k].payloadStart, extents[cie].start, CieAt(extents[cie], texts[cie]));
    FdeRead(m, sec, extents[k], CieAt(extents[cie], texts[cie]), ItemsAt(texts, k), texts[k].fdeText,
            texts[k].dataEnd, texts[k].instructions);
  }

  /** The parse that follows the entry before, or a fresh one, gives the entry of the next text. */
  lemma {:induction false} NextParses(m: Mem, sec: Section, extents: seq<Extent>, texts: seq<Text>, k: nat, prior: Fde)
    requires Laid(m, sec, extents) && Described(m, extents, texts) && k < |texts|
    requires if k == 0 then prior == NO_FDE else EntryAt(extents, texts, k - 1, prior)
    ensures ParseFde(m, sec, prior, extents[k].start).Ok?
    ensures EntryAt(extents, texts, k, ParseFde(m, sec, prior, extents[k].start).value)
  {
    assert LaidAt(m, sec, extents, k) && DescribedAt(m, extents, texts, k);
    if texts[k].FdeEntry? {
      FdeParses(m, sec, extents, texts, k);
    }
  }

  /** The first text from k on whose range holds pc, or the number of texts. */
  function FirstCovering(texts: seq<Text>, k: nat, pc: u64): (c: nat)
    requires k <= |texts|
    ensures k <= c <= |texts| && (c < |texts| ==> texts[c].Covers(pc))
    ensures forall i | k <= i < c :: !texts[i].Covers(pc)
    decreases |texts| - k
  {
    if k == |texts| || texts[k].Covers(pc) then k else FirstCovering(texts, k + 1, pc)
  }

  /** The answer of find_fde: the entry of text c, or none. */
  predicate Answered(answer: Outcome<Fde>, extents: seq<Extent>, texts: seq<Text>, c: nat)
    requires c <= |texts| == |extents|
  {
    if c == |texts| then answer == Ok(NO_FDE) else answer.Ok? && EntryAt(extents, texts, c, answer.value)
  }

  lemma {:induction false} LookupFrom(m: Mem, sec: Section, extents: seq<Extent>, texts: seq<Text>, k: nat,
                                      fde: Fde, pc: u64)
    requires Laid(m, sec, extents) && Described(m, extents, texts) && k < |texts| && EntryAt(extents, texts, k, fde)
    ensures InSection(sec, fde)
    ensures Answered(FindFrom(m, sec, fde, pc), extents, texts, FirstCovering(texts, k, pc))
    decreases |texts| - k
  {
    KindOf(m, extents, texts, k);
    assert LaidAt(m, sec, extents, k);
    EntryAnswers(m, sec, extents, texts, k, fde, pc);
    if !texts[k].Covers(pc) {
      if k + 1 < |texts| {
        NextParses(m, sec, extents, texts, k + 1, fde);
        LookupFrom(m, sec, extents, texts, k + 1, NextFde(m, sec, fde).value, pc);
      } else {
        assert ParseExtent(m, sec, 0) == Ok(NO_EXTENT);
      }
    }
  }

  lemma {:induction false} KindOf(m: Mem, extents: seq<Extent>, texts: seq<Text>, k: nat)
    requires Described(m, extents, texts) && k < |texts|
    ensures extents[k].isCie <==> texts[k].CieEntry?
  {
    assert DescribedAt(m, extents, texts, k);
  }

  lemma {:induction false} EntryAnswers(m: Mem, sec: Section, extents: seq<Extent>, texts: seq<Text>, k: nat,
                                        fde: Fde, pc: u64)
    requires k < |extents| == |texts| && LaidAt(m, sec, extents, k) && EntryAt(extents, texts, k, fde)
    requires extents[k].isCie <==> texts[k].CieEntry?
    ensures InSection(sec, fde) && fde.Exists() && (Answers(fde, pc) <==> texts[k].Covers(pc))
  {
  }

  /**
   find_fde on a section that was written from a list of texts: the answer is the first FDE whose
   range holds pc, with the fields of its text, the language-specific data that the walk carries
   there, and its instructions exactly if the parser reads all of its data; or there is no such FDE
   and no answer.
   */
  lemma {:induction false} SerialisedLookup(m: Mem, sec: Section, rs: seq<Record>, terminated: bool,
                                            texts: seq<Text>, pc: u64)
    requires Serialised(m, sec, rs, terminated) && Described(m, ExtentsOf(m, rs, sec.addr), texts)
    ensures Answered(FindFde(m, sec, pc), ExtentsOf(m, rs, sec.addr), texts, FirstCovering(texts, 0, pc))
  {
    var extents := ExtentsOf(m, rs, sec.addr);
    RecordsLaid(m, sec, rs, terminated, sec.addr);
    if rs == [] {
      ReadStored32(m, sec.addr, 0);
    } else {
      NextParses(m, sec, extents, texts, 0, NO_FDE);
      LookupFrom(m, sec, extents, texts, 0, FirstFde(m, sec).value, pc);
    }
  }
}
