/**
 Language-specific data areas written from lists: call sites, the chains of their actions, and
 the types.  On such an area the personality routine answers by the listed values alone.
 */
module LsdaTables {
  import opened Words
  import opened Memory
  import opened Leb128
  import opened Personality

  /////////////////////////////////////////////////////////////////////////////
  // What an area says
  /////////////////////////////////////////////////////////////////////////////

  /** A call site with the type indices of its actions; it may have none.  Index 0 is a cleanup. */
  datatype SiteText = SiteText(start: byte, len: byte, landingPad: byte, chain: seq<byte>)

  /** The types stand in the order of memory: index i counts from the end of their table. */
  datatype Tables = Tables(sites: seq<SiteText>, types: seq<u64>)

  /** The type of index i. */
  function TypeOf(t: Tables, i: nat): u64
    requires 0 < i <= |t.types|
  {
    t.types[|t.types| - i]
  }

  /** The throwing instruction lies at the site, whose ends both count, and the site has a landing pad. */
  predicate AtSite(q: Query, s: SiteText) {
    s.landingPad != 0 && Wrap(q.function_ + s.start) <= q.throwIp <= Wrap(q.function_ + s.start + s.len)
  }

  /** Action n of site k is there, at the throwing instruction. */
  predicate Listed(t: Tables, q: Query, k: nat, n: nat) {
    k < |t.sites| && n < |t.sites[k].chain| && AtSite(q, t.sites[k])
  }

  /** It is a handler of the thrown type; a null thrown type is caught by every handler. */
  predicate Handles(t: Tables, q: Query, k: nat, n: nat) {
    && Listed(t, q, k, n)
    && var i := t.sites[k].chain[n];
       0 < i <= |t.types| && (TypeOf(t, i) == q.thrownType || q.thrownType == 0)
  }

  /** It is such a handler or a cleanup. */
  predicate Lands(t: Tables, q: Query, k: nat, n: nat) {
    Listed(t, q, k, n) && (t.sites[k].chain[n] == 0 || Handles(t, q, k, n))
  }

  /////////////////////////////////////////////////////////////////////////////
  // The bytes
  /////////////////////////////////////////////////////////////////////////////

  predicate IsSigned32(d: int) {
    -0x8000_0000 <= d < 0x8000_0000
  }

  /**
   A chain of actions at `at`: a type index, and the signed LEB128 distance from behind it to the
   next action; distance zero ends the chain.
   */
  ghost predicate ChainWritten(m: Mem, at: int, chain: seq<byte>)
    decreases |chain|, 0
  {
    chain != [] && Read8(m, at) == Ok(chain[0]) && exists d: int :: Linked(m, at, d, chain[1..])
  }

  ghost predicate Linked(m: Mem, at: int, d: int, rest: seq<byte>)
    decreases |rest|, 1
  {
    && IsSigned32(d) && (d == 0 <==> rest == []) && Holds(m, at + 1, EncodeSleb(d))
    && (rest != [] ==> ChainWritten(m, at + 1 + d, rest))
  }

  /** A call site at p: four bytes, the last of them the place of its first action, counted from 1. */
  ghost predicate SiteWritten(m: Mem, p: int, actions: int, s: SiteText) {
    exists action: byte :: SiteBytes(m, p, s, action) && PointsTo(m, actions, action, s.chain)
  }

  ghost predicate SiteBytes(m: Mem, p: int, s: SiteText, action: byte) {
    Holds(m, p, [s.start, s.len, s.landingPad, action])
  }

  ghost predicate PointsTo(m: Mem, actions: int, action: byte, chain: seq<byte>) {
    if chain == [] then action == 0 else action != 0 && ChainWritten(m, actions + action - 1, chain)
  }

  /** Type i stands 8 * i bytes in front of the end of the table. */
  ghost predicate TypeWritten(m: Mem, end: int, t: Tables, i: nat)
    requires 0 < i <= |t.types|
  {
    Holds(m, end - 8 * i, LeBytes(TypeOf(t, i), 8))
  }

  /** Call site k of a table at p, which the actions follow. */
  ghost predicate SiteStored(m: Mem, p: int, t: Tables, k: nat)
    requires k < |t.sites|
  {
    SiteWritten(m, p + 4 * k, p + 4 * |t.sites|, t.sites[k])
  }

  ghost predicate SitesWritten(m: Mem, p: int, t: Tables) {
    forall k: nat | k < |t.sites| :: SiteStored(m, p, t, k)
  }

  ghost predicate TypesWritten(m: Mem, end: int, t: Tables) {
    forall i: nat | 0 < i <= |t.types| :: TypeWritten(m, end, t, i)
  }

  /**
   The area at raw: a header whose third byte gives the end of the type table and whose last one
   the length of the call-site table, the call sites, and the actions behind them.
   */
  ghost predicate AreaWritten(m: Mem, raw: int, header: seq<byte>, t: Tables) {
    && |header| == 5 && Holds(m, raw, header) && header[4] == 4 * |t.sites|
    && SitesWritten(m, raw + 5, t) && TypesWritten(m, raw + 3 + header[2], t)
    && (forall s <- t.sites :: Within(s.chain, |t.types|))
  }

  /** The indices name types of the table. */
  predicate Within(chain: seq<byte>, types: nat) {
    forall k | 0 <= k < |chain| :: chain[k] <= types
  }

  ghost predicate Written(m: Mem, raw: int, t: Tables) {
    exists header :: AreaWritten(m, raw, header, t)
  }

  /** No chain is longer than the budget of the scan. */
  predicate Short(t: Tables, fuel: nat) {
    forall s <- t.sites :: |s.chain| <= fuel
  }

  /////////////////////////////////////////////////////////////////////////////
  // Reading them
  /////////////////////////////////////////////////////////////////////////////

  lemma {:induction false} NarrowRead(m: Mem, p: int, d: int)
    requires IsSigned32(d) && Holds(m, p, EncodeSleb(d))
    ensures NarrowSleb(m, p) == Ok(d)
  {
    SignedWrap(d);
    SlebRoundTrip(m, p, Wrap(d));
    NarrowWrap(d);
  }

  lemma {:induction false} NarrowWrap(d: int)
    requires IsSigned32(d)
    ensures Narrow(Wrap(d)) == d
  {
  }

  lemma {:induction false} ActionRead(m: Mem, at: int, d: int, chain: seq<byte>)
    requires chain != [] && Read8(m, at) == Ok(chain[0]) && Linked(m, at, d, chain[1..])
    ensures ParseAction(m, at) == Ok(Action(chain[0], d, at)) && (d == 0 <==> |chain| == 1)
    ensures |chain| > 1 ==> ChainWritten(m, at + 1 + d, chain[1..])
  {
    NarrowRead(m, at + 1, d);
  }

  /** Action n of a written chain. */
  lemma {:induction false} ActionListed(m: Mem, at: int, chain: seq<byte>, n: nat)
    requires ChainWritten(m, at, chain)
    ensures ActionAt(m, at, n).Some? <==> n < |chain|
    ensures n < |chain| ==> ActionAt(m, at, n).value.typeIndex == chain[n]
    decreases n
  {
    var d: int :| Linked(m, at, d, chain[1..]);
    ActionRead(m, at, d, chain);
    if n > 0 && |chain| > 1 {
      ActionListed(m, at + 1 + d, chain[1..], n - 1);
    }
  }

  lemma {:induction false} TypeListed(m: Mem, lsda: Lsda, t: Tables, a: Action)
    requires 0 < a.typeIndex <= |t.types| && TypeWritten(m, lsda.types, t, a.typeIndex)
    ensures TypeFor(m, lsda, a) == Ok(TypeOf(t, a.typeIndex))
  {
    ReadStored64(m, lsda.types - 8 * a.typeIndex, TypeOf(t, a.typeIndex));
  }

  lemma {:induction false} ChainListed(m: Mem, lsda: Lsda, t: Tables, at: int, chain: seq<byte>, fuel: nat)
    requires ChainWritten(m, at, chain) && TypesWritten(m, lsda.types, t) && |chain| <= fuel && Within(chain, |t.types|)
    ensures ChainEnds(m, lsda, at, fuel)
    decreases |chain|
  {
    var d: int :| Linked(m, at, d, chain[1..]);
    ActionRead(m, at, d, chain);
    assert forall k | 0 <= k < |chain[1..]| :: chain[1..][k] == chain[k + 1];
    if chain[0] != 0 {
      TypeRead(m, lsda, t, Action(chain[0], d, at));
    }
    if |chain| > 1 {
      ChainListed(m, lsda, t, at + 1 + d, chain[1..], fuel - 1);
    }
  }

  lemma {:induction false} TypeRead(m: Mem, lsda: Lsda, t: Tables, a: Action)
    requires 0 < a.typeIndex <= |t.types| && TypesWritten(m, lsda.types, t)
    ensures TypeFor(m, lsda, a) == Ok(TypeOf(t, a.typeIndex))
  {
    assert TypeWritten(m, lsda.types, t, a.typeIndex);
    TypeListed(m, lsda, t, a);
  }

  /** The addresses that the constructor of LSDA computes. */
  function LsdaOf(raw: int, header: seq<byte>, t: Tables): Lsda
    requires |header| == 5
  {
    Lsda(raw + 3 + header[2], raw + 5, raw + 5 + 4 * |t.sites|)
  }

  lemma {:induction false} HeaderRead(m: Mem, raw: int, header: seq<byte>, t: Tables)
    requires AreaWritten(m, raw, header, t)
    ensures ParseLsda(m, raw) == Ok(LsdaOf(raw, header, t)) && TypesWritten(m, LsdaOf(raw, header, t).types, t)
  {
    HoldsAt(m, raw, header, 0);
    HoldsAt(m, raw, header, 1);
    HoldsAt(m, raw, header, 2);
    HoldsAt(m, raw, header, 3);
    HoldsAt(m, raw, header, 4);
  }

  /** The call site that the bytes of a listed one hold. */
  predicate IsSite(site: CallSite, s: SiteText) {
    && site.start == s.start && site.len == s.len && site.landingPad == s.landingPad
    && (site.action == 0 <==> s.chain == [])
  }

  lemma {:induction false} SiteRead(m: Mem, p: int, actions: int, s: SiteText) returns (site: CallSite)
    requires SiteWritten(m, p, actions, s)
    ensures ParseCallSite(m, p) == Ok(site) && IsSite(site, s)
    ensures s.chain != [] ==> ChainWritten(m, actions + site.action - 1, s.chain)
  {
    var action: byte :| SiteBytes(m, p, s, action) && PointsTo(m, actions, action, s.chain);
    var bytes := [s.start, s.len, s.landingPad, action];
    HoldsAt(m, p, bytes, 0);
    HoldsAt(m, p, bytes, 1);
    HoldsAt(m, p, bytes, 2);
    HoldsAt(m, p, bytes, 3);
    site := CallSite(s.start, s.len, s.landingPad, action);
  }

  lemma {:induction false} SiteListed(m: Mem, raw: int, header: seq<byte>, t: Tables, k: nat) returns (site: CallSite)
    requires AreaWritten(m, raw, header, t) && k < |t.sites|
    ensures var lsda := LsdaOf(raw, header, t);
            && SiteAt(m, lsda, k) == Some(site) && IsSite(site, t.sites[k])
            && (t.sites[k].chain != [] ==> ChainWritten(m, ChainStart(lsda, site), t.sites[k].chain))
  {
    assert SiteStored(m, raw + 5, t, k);
    site := SiteRead(m, raw + 5 + 4 * k, raw + 5 + 4 * |t.sites|, t.sites[k]);
  }

  lemma {:induction false} SiteRelevant(q: Query, site: CallSite, s: SiteText)
    requires IsSite(site, s)
    ensures Relevant(q, site) <==> AtSite(q, s)
  {
  }

  /** The scan of a written area ends. */
  lemma {:induction false} AreaFinite(m: Mem, raw: int, header: seq<byte>, t: Tables, q: Query, fuel: nat)
    requires AreaWritten(m, raw, header, t) && Short(t, fuel)
    ensures Finite(m, LsdaOf(raw, header, t), q, fuel)
  {
    var lsda := LsdaOf(raw, header, t);
    HeaderRead(m, raw, header, t);
    forall k: nat | lsda.callSites + 4 * k < lsda.callSitesEnd
      ensures SiteAt(m, lsda, k).Some?
      ensures var site := SiteAt(m, lsda, k).value;
              Relevant(q, site) && site.action != 0 ==> ChainEnds(m, lsda, ChainStart(lsda, site), fuel)
    {
      var site := SiteListed(m, raw, header, t, k);
      assert t.sites[k] in t.sites;
      if site.action != 0 {
        ChainListed(m, lsda, t, ChainStart(lsda, site), t.sites[k].chain, fuel);
      }
    }
  }

  /** What the routine makes of action n of a site at the throwing instruction. */
  predicate Says(t: Tables, q: Query, search: bool, s: SiteText, n: nat, v: Verdict) {
    && n < |s.chain|
    && var i := s.chain[n];
       var caught := 0 < i <= |t.types| && (TypeOf(t, i) == q.thrownType || q.thrownType == 0);
       if search then caught && v == HandlerFound
       else (i == 0 || caught) && v == Install(i, Wrap(q.function_ + s.landingPad))
  }

  lemma {:induction false} ReactionListed(m: Mem, lsda: Lsda, t: Tables, q: Query, actions: Actions, site: CallSite,
                                          s: SiteText, at: int, n: nat, v: Verdict)
    requires TypesWritten(m, lsda.types, t) && IsSite(site, s) && Within(s.chain, |t.types|)
    requires actions.search == !actions.cleanup && ChainWritten(m, at, s.chain)
    ensures ReactsAt(m, lsda, q, actions, site, at, n, v) <==> Says(t, q, actions.search, s, n, v)
  {
    ActionListed(m, at, s.chain, n);
    if n < |s.chain| {
      ReactionMeans(m, lsda, t, q, actions, site, s, ActionAt(m, at, n).value, n, v);
    }
  }

  lemma {:induction false} ReactionMeans(m: Mem, lsda: Lsda, t: Tables, q: Query, actions: Actions, site: CallSite,
                                         s: SiteText, action: Action, n: nat, v: Verdict)
    requires TypesWritten(m, lsda.types, t) && IsSite(site, s) && Within(s.chain, |t.types|)
    requires actions.search == !actions.cleanup && n < |s.chain| && action.typeIndex == s.chain[n]
    ensures React(m, lsda, q, actions, site, action) == Ok(Some(v)) <==> Says(t, q, actions.search, s, n, v)
  {
    if s.chain[n] != 0 {
      TypeRead(m, lsda, t, action);
    }
  }

  /** What it makes of place (k, n) of a written area. */
  predicate PlaceMeans(m: Mem, lsda: Lsda, t: Tables, q: Query, actions: Actions, k: nat, n: nat, v: Verdict) {
    Yields(m, lsda, q, actions, k, n, v) <==>
    k < |t.sites| && AtSite(q, t.sites[k]) && Says(t, q, actions.search, t.sites[k], n, v)
  }

  lemma {:induction false} PlaceListed(m: Mem, raw: int, header: seq<byte>, t: Tables, q: Query, actions: Actions,
                                       k: nat, n: nat, v: Verdict)
    requires AreaWritten(m, raw, header, t) && actions.search == !actions.cleanup
    ensures PlaceMeans(m, LsdaOf(raw, header, t), t, q, actions, k, n, v)
  {
    var lsda := LsdaOf(raw, header, t);
    if k < |t.sites| {
      HeaderRead(m, raw, header, t);
      var site := SiteListed(m, raw, header, t, k);
      assert t.sites[k] in t.sites;
      SiteMeans(m, lsda, t, q, actions, site, k, n, v);
    } else {
      assert SiteAt(m, lsda, k).None?;
    }
  }

  lemma {:induction false} SiteMeans(m: Mem, lsda: Lsda, t: Tables, q: Query, actions: Actions, site: CallSite,
                                     k: nat, n: nat, v: Verdict)
    requires k < |t.sites| && SiteAt(m, lsda, k) == Some(site) && IsSite(site, t.sites[k])
    requires t.sites[k].chain != [] ==> ChainWritten(m, ChainStart(lsda, site), t.sites[k].chain)
    requires TypesWritten(m, lsda.types, t) && Within(t.sites[k].chain, |t.types|) && actions.search == !actions.cleanup
    ensures PlaceMeans(m, lsda, t, q, actions, k, n, v)
  {
    SiteRelevant(q, site, t.sites[k]);
    if site.action != 0 {
      ReactionListed(m, lsda, t, q, actions, site, t.sites[k], ChainStart(lsda, site), n, v);
    }
  }

  /////////////////////////////////////////////////////////////////////////////
  // The answers
  /////////////////////////////////////////////////////////////////////////////

  /** The routine can scan the area, and an action of it catches exactly if a handler is listed. */
  ghost predicate Scannable(m: Mem, raw: u64, t: Tables, q: Query, fuel: nat) {
    && ParseLsda(m, raw).Ok? && Finite(m, ParseLsda(m, raw).value, q, fuel)
    && forall k: nat, n: nat :: Catches(m, ParseLsda(m, raw).value, q, k, n) <==> Handles(t, q, k, n)
  }

  lemma {:induction false} AreaScannable(m: Mem, raw: u64, t: Tables, q: Query, fuel: nat)
    requires Written(m, raw, t) && Short(t, fuel)
    ensures Scannable(m, raw, t, q, fuel)
  {
    var header :| AreaWritten(m, raw, header, t);
    var lsda := LsdaOf(raw, header, t);
    HeaderRead(m, raw, header, t);
    AreaFinite(m, raw, header, t, q, fuel);
    forall k: nat, n: nat
      ensures Catches(m, lsda, q, k, n) <==> Handles(t, q, k, n)
    {
      CatchesYields(m, lsda, q, false, k, n);
      PlaceListed(m, raw, header, t, q, SEARCH, k, n, HandlerFound);
    }
  }

  /** A search finds a handler exactly if one is listed. */
  lemma {:induction false} SearchAnswers(m: Mem, raw: u64, t: Tables, q: Query, fuel: nat)
    requires Written(m, raw, t) && Short(t, fuel)
    ensures Scan(m, raw, q, SEARCH, fuel) ==
            Ok(if exists k: nat, n: nat :: Handles(t, q, k, n) then HandlerFound else ContinueUnwind)
  {
    AreaScannable(m, raw, t, q, fuel);
    SearchIsExact(m, raw, q, fuel);
  }

  /** No cleanup and no handler is listed in front of place (k, n). */
  ghost predicate IsFirst(t: Tables, q: Query, k: nat, n: nat) {
    Lands(t, q, k, n) && forall j: nat, i: nat | Before(j, i, k, n) :: !Lands(t, q, j, i)
  }

  /** The answer of a cleanup call: the landing pad of the first cleanup or handler, with its type index. */
  ghost predicate CleanupAnswer(t: Tables, q: Query, verdict: Verdict) {
    || (verdict == ContinueUnwind && forall k: nat, n: nat :: !Lands(t, q, k, n))
    || exists k: nat, n: nat :: IsFirst(t, q, k, n) && InstallsAt(t, q, k, n, verdict)
  }

  predicate InstallsAt(t: Tables, q: Query, k: nat, n: nat, verdict: Verdict)
    requires Listed(t, q, k, n)
  {
    verdict == Install(t.sites[k].chain[n], Wrap(q.function_ + t.sites[k].landingPad))
  }

  lemma {:induction false} CleanupAnswers(m: Mem, raw: u64, t: Tables, q: Query, handlerFrame: bool, fuel: nat)
    requires Written(m, raw, t) && Short(t, fuel)
    ensures var verdict := Scan(m, raw, q, Cleanup(handlerFrame), fuel);
            verdict.Ok? && CleanupAnswer(t, q, verdict.value)
  {
    var header :| AreaWritten(m, raw, header, t);
    var lsda, actions := LsdaOf(raw, header, t), Cleanup(handlerFrame);
    HeaderRead(m, raw, header, t);
    AreaFinite(m, raw, header, t, q, fuel);
    SitesComplete(m, lsda, q, actions, 0, fuel);
    var k, n := ScanFirst(m, raw, q, actions, fuel);
    forall j: nat, i: nat, v
      ensures PlaceMeans(m, lsda, t, q, actions, j, i, v)
    {
      PlaceListed(m, raw, header, t, q, actions, j, i, v);
    }
    FirstPlace(m, lsda, t, q, actions, k, n, Scan(m, raw, q, actions, fuel).value);
  }

  lemma {:induction false} FirstPlace(m: Mem, lsda: Lsda, t: Tables, q: Query, actions: Actions, k: nat, n: nat,
                                      verdict: Verdict)
    requires !actions.search && forall j: nat, i: nat, v :: PlaceMeans(m, lsda, t, q, actions, j, i, v)
    requires verdict == ContinueUnwind <==> forall j: nat, i: nat, v :: !Yields(m, lsda, q, actions, j, i, v)
    requires verdict != ContinueUnwind ==>
               && Yields(m, lsda, q, actions, k, n, verdict)
               && forall j: nat, i: nat, v | Before(j, i, k, n) :: !Yields(m, lsda, q, actions, j, i, v)
    ensures CleanupAnswer(t, q, verdict)
  {
    forall j: nat, i: nat | Lands(t, q, j, i)
      ensures exists v :: Yields(m, lsda, q, actions, j, i, v)
    {
      var v := Install(t.sites[j].chain[i], Wrap(q.function_ + t.sites[j].landingPad));
      assert PlaceMeans(m, lsda, t, q, actions, j, i, v);
    }
    if verdict != ContinueUnwind {
      assert PlaceMeans(m, lsda, t, q, actions, k, n, verdict);
      assert IsFirst(t, q, k, n) && InstallsAt(t, q, k, n, verdict);
    }
  }

  /////////////////////////////////////////////////////////////////////////////
  // An area with two types
  /////////////////////////////////////////////////////////////////////////////

  /** A site around the first ten bytes of its function, with a handler of the second type from the end. */
  function TwoTypes(first: u64, second: u64): Tables {
    Tables([SiteText(0, 10, 5, [2])], [first, second])
  }

  function TwoTypesArea(first: u64, second: u64): seq<byte> {
    [0xFF, 0, 24, 1, 4] + ([0, 10, 5, 1] + ([2] + (EncodeSleb(0) + (LeBytes(first, 8) + LeBytes(second, 8)))))
  }

  lemma {:induction false} PartsHeld(m: Mem, p: int, header: seq<byte>, site: seq<byte>, index: byte, end: seq<byte>,
                                     first: seq<byte>, second: seq<byte>)
    requires |header| == 5 && |site| == 4 && |end| == 1 && |first| == 8
    requires Holds(m, p, header + (site + ([index] + (end + (first + second)))))
    ensures Holds(m, p, header) && Holds(m, p + 5, site) && Read8(m, p + 9) == Ok(index)
    ensures Holds(m, p + 10, end) && Holds(m, p + 11, first) && Holds(m, p + 19, second)
  {
    HoldsConcat(m, p, header, site + ([index] + (end + (first + second))));
    HoldsConcat(m, p + 5, site, [index] + (end + (first + second)));
    HeadAndRest(m, p + 9, index, end + (first + second));
    HoldsConcat(m, p + 10, end, first + second);
    HoldsConcat(m, p + 11, first, second);
  }

  lemma {:induction false} TwoTypesWritten(m: Mem, raw: int, first: u64, second: u64)
    requires Holds(m, raw, TwoTypesArea(first, second))
    ensures Written(m, raw, TwoTypes(first, second))
  {
    PartsHeld(m, raw, [0xFF, 0, 24, 1, 4], [0, 10, 5, 1], 2, EncodeSleb(0), LeBytes(first, 8), LeBytes(second, 8));
    TwoTypesStored(m, raw, [0xFF, 0, 24, 1, 4], TwoTypes(first, second), first, second);
  }

  lemma {:induction false} TwoTypesStored(m: Mem, raw: int, header: seq<byte>, t: Tables, first: u64, second: u64)
    requires t == TwoTypes(first, second) && header == [0xFF, 0, 24, 1, 4]
    requires Holds(m, raw, header) && Holds(m, raw + 5, [0, 10, 5, 1])
    requires Read8(m, raw + 9) == Ok(2) && Holds(m, raw + 10, EncodeSleb(0))
    requires Holds(m, raw + 11, LeBytes(first, 8)) && Holds(m, raw + 19, LeBytes(second, 8))
    ensures AreaWritten(m, raw, header, t)
  {
    assert Linked(m, raw + 9, 0, [2][1..]);
    assert SiteBytes(m, raw + 5, t.sites[0], 1) && PointsTo(m, raw + 9, 1, [2]);
    assert SiteStored(m, raw + 5, t, 0);
    assert TypeWritten(m, raw + 27, t, 1) && TypeWritten(m, raw + 27, t, 2);
  }

  lemma {:induction false} TwoTypesHandle(t: Tables, q: Query, first: u64, second: u64)
    requires t == TwoTypes(first, second) && q.throwIp == q.function_ + 3 && q.function_ < TWO63
    ensures Short(t, 1) && (Handles(t, q, 0, 0) <==> q.thrownType in {0, first})
    ensures forall k: nat, n: nat | Handles(t, q, k, n) :: k == 0 && n == 0
  {
    AtStart(q.function_);
    assert TypeOf(t, 2) == first;
  }

  lemma {:induction false} AtStart(function_: u64)
    requires function_ < TWO63
    ensures Wrap(function_ + 0) == function_ && Wrap(function_ + 0 + 10) == function_ + 10
  {
  }

  /** From the fourth byte of the function, a search finds the first type or a null type, and no other. */
  lemma {:induction false} SecondTypeCaught(m: Mem, raw: u64, q: Query, first: u64, second: u64)
    requires Holds(m, raw, TwoTypesArea(first, second)) && q.throwIp == q.function_ + 3 && q.function_ < TWO63
    ensures Scan(m, raw, q, SEARCH, 1) == Ok(if q.thrownType in {0, first} then HandlerFound else ContinueUnwind)
  {
    TwoTypesWritten(m, raw, first, second);
    TwoTypesHandle(TwoTypes(first, second), q, first, second);
    SearchAnswers(m, raw, TwoTypes(first, second), q, 1);
  }
}
