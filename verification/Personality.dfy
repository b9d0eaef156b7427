/**
 The personality routine __gxx_personality_v0 (libsupc++/src/cxxabi.cpp): it scans the
 call-site table of a function's language-specific data area and, for each call site that
 covers the throwing instruction, the chain of actions of that site.
 */
module Personality {
  import opened Words
  import opened Memory
  import opened Leb128
  import opened Loops

  /////////////////////////////////////////////////////////////////////////////
  // The tables
  /////////////////////////////////////////////////////////////////////////////

  /** LSDA: the addresses its constructor computes.  The action table starts where the call sites end. */
  datatype Lsda = Lsda(types: int, callSites: int, callSitesEnd: int)

  /** LSDA::LSDA: a header of three bytes, a call-site header of two, the call-site table. */
  function ParseLsda(m: Mem, raw: int): Outcome<Lsda> {
    var startEncoding :- Read8(m, raw);
    var typeEncoding :- Read8(m, raw + 1);
    var typeOffset :- Read8(m, raw + 2);
    var encoding :- Read8(m, raw + 3);
    var length :- Read8(m, raw + 4);
    Ok(Lsda(raw + 3 + typeOffset, raw + 5, raw + 5 + length))
  }

  const CALL_SITE_SIZE: nat := 4

  /** LSDA_CS. */
  datatype CallSite = CallSite(start: byte, len: byte, landingPad: byte, action: byte) {
    predicate HasLandingPad() {
      landingPad != 0
    }

    /** valid_for_throw_ip. */
    predicate Covers(function_: u64, throwIp: u64) {
      Wrap(function_ + start) <= throwIp <= Wrap(function_ + start + len)
    }
  }

  function ParseCallSite(m: Mem, p: int): Outcome<CallSite> {
    var start :- Read8(m, p);
    var len :- Read8(m, p + 1);
    var landingPad :- Read8(m, p + 2);
    var action :- Read8(m, p + 3);
    Ok(CallSite(start, len, landingPad, action))
  }

  /** LSDA::Action: a type index (0 for a cleanup) and the way to the next action of the chain. */
  datatype Action = Action(typeIndex: byte, nextOffset: int, at: int) {
    function NextAddress(): int {
      at + 1 + nextOffset
    }
  }

  function ParseAction(m: Mem, at: int): (r: Outcome<Action>)
    ensures r.Ok? ==> r.value.at == at
  {
    var typeIndex :- Read8(m, at);
    var nextOffset :- NarrowSleb(m, at + 1);
    Ok(Action(typeIndex, nextOffset, at))
  }

  /** get_first_action_for_cs: where the chain of a site with an action starts. */
  function ChainStart(lsda: Lsda, site: CallSite): int {
    lsda.callSitesEnd + site.action - 1
  }

  /** get_type_for: the type table grows downwards. */
  function TypeFor(m: Mem, lsda: Lsda, action: Action): Outcome<u64> {
    Read64(m, lsda.types - 8 * action.typeIndex)
  }

  /** can_handle(thrown, catch): a null second argument is taken for catch (...). */
  predicate CanHandle(thrownException: u64, catchType: u64) {
    catchType == 0 || thrownException == catchType
  }

  /////////////////////////////////////////////////////////////////////////////
  // The scan
  /////////////////////////////////////////////////////////////////////////////

  /** _Unwind_Action: the flags of a call. */
  datatype Actions = Actions(search: bool, cleanup: bool, handlerFrame: bool)

  const SEARCH := Actions(true, false, false)

  function Cleanup(handlerFrame: bool): Actions {
    Actions(false, true, handlerFrame)
  }

  /** What the routine is asked about: the function, the throwing instruction, the thrown type. */
  datatype Query = Query(function_: u64, throwIp: u64, thrownType: u64)

  datatype Verdict = ContinueUnwind | HandlerFound | Install(typeIndex: byte, landingPad: u64)

  /** The body of the inner loop: a verdict if the routine returns at this action. */
  function React(m: Mem, lsda: Lsda, query: Query, actions: Actions, site: CallSite,
                 action: Action): Outcome<Option<Verdict>> {
    var landed := Some(Install(action.typeIndex, Wrap(query.function_ + site.landingPad)));
    if action.typeIndex == 0 then Ok(if actions.cleanup then landed else None)
    else
      var catchType :- TypeFor(m, lsda, action);
      Ok(if !CanHandle(catchType, query.thrownType) then None
         else if actions.search then Some(HandlerFound)
         else landed)
  }

  /** The inner loop, from the action at `at` on. */
  function ScanChain(m: Mem, lsda: Lsda, query: Query, actions: Actions, site: CallSite, at: int,
                     fuel: nat): Outcome<Option<Verdict>>
    decreases fuel
  {
    if fuel == 0 then Timeout
    else
      var action :- ParseAction(m, at);
      var reaction :- React(m, lsda, query, actions, site, action);
      if reaction.Some? || action.nextOffset == 0 then Ok(reaction)
      else ScanChain(m, lsda, query, actions, site, action.NextAddress(), fuel - 1)
  }

  /** The sites whose actions the routine looks at. */
  predicate Relevant(query: Query, site: CallSite) {
    site.HasLandingPad() && site.Covers(query.function_, query.throwIp)
  }

  /** The chain of one site; a site that is not relevant or has no action lets the scan go on. */
  function ScanSite(m: Mem, lsda: Lsda, query: Query, actions: Actions, site: CallSite,
                    fuel: nat): Outcome<Option<Verdict>> {
    if !Relevant(query, site) || site.action == 0 then Ok(None)
    else ScanChain(m, lsda, query, actions, site, ChainStart(lsda, site), fuel)
  }

  /** The outer loop, from the call site at p on. */
  function ScanSites(m: Mem, lsda: Lsda, query: Query, actions: Actions, p: int, fuel: nat): Outcome<Verdict>
    decreases lsda.callSitesEnd - p
  {
    if p >= lsda.callSitesEnd then Ok(ContinueUnwind)
    else
      var site :- ParseCallSite(m, p);
      var reaction :- ScanSite(m, lsda, query, actions, site, fuel);
      match reaction
      case Some(verdict) => Ok(verdict)
      case None => ScanSites(m, lsda, query, actions, p + CALL_SITE_SIZE, fuel)
  }

  /** __gxx_personality_v0 as a value; `fuel` bounds every chain of actions. */
  function Scan(m: Mem, raw: u64, query: Query, actions: Actions, fuel: nat): Outcome<Verdict> {
    var lsda :- ParseLsda(m, raw);
    ScanSites(m, lsda, query, actions, lsda.callSites, fuel)
  }

  /////////////////////////////////////////////////////////////////////////////
  // The tables as a relation
  /////////////////////////////////////////////////////////////////////////////

  /** Action n of the chain that starts at `at`, if the chain is that long. */
  function ActionAt(m: Mem, at: int, n: nat): Option<Action>
    decreases n, at
  {
    match ParseAction(m, at)
    case Ok(action) =>
      if n == 0 then Some(action)
      else if action.nextOffset == 0 then None
      else ActionAt(m, action.NextAddress(), n - 1)
    case _ => None
  }

  /** Call site k of the table, if the table is that long. */
  function SiteAt(m: Mem, lsda: Lsda, k: nat): Option<CallSite> {
    if lsda.callSites + 4 * k >= lsda.callSitesEnd then None
    else
      match ParseCallSite(m, lsda.callSites + 4 * k)
      case Ok(site) => Some(site)
      case _ => None
  }

  /** The n-th action of a site covers the throwing instruction and lets the routine return v. */
  predicate ReactsAt(m: Mem, lsda: Lsda, query: Query, actions: Actions, site: CallSite, at: int, n: nat, v: Verdict) {
    var action := ActionAt(m, at, n);
    action.Some? && React(m, lsda, query, actions, site, action.value) == Ok(Some(v))
  }

  /** Place (k, n) of the tables: action n of call site k makes the routine return v. */
  predicate Yields(m: Mem, lsda: Lsda, query: Query, actions: Actions, k: nat, n: nat, v: Verdict) {
    var site := SiteAt(m, lsda, k);
    && site.Some? && Relevant(query, site.value) && site.value.action != 0
    && ReactsAt(m, lsda, query, actions, site.value, ChainStart(lsda, site.value), n, v)
  }

  /** The scan order of places. */
  predicate Before(j: nat, i: nat, k: nat, n: nat) {
    j < k || (j == k && i < n)
  }

  /** The routine returns at the first place of the chain that lets it. */
  lemma {:induction false} ChainFirst(m: Mem, lsda: Lsda, query: Query, actions: Actions, site: CallSite, at: int,
                                      fuel: nat)
    returns (n: nat)
    requires ScanChain(m, lsda, query, actions, site, at, fuel).Ok?
    ensures match ScanChain(m, lsda, query, actions, site, at, fuel).value
            case None => forall i: nat, v :: !ReactsAt(m, lsda, query, actions, site, at, i, v)
            case Some(verdict) => ReactsAt(m, lsda, query, actions, site, at, n, verdict)
                                  && forall i: nat, v | i < n :: !ReactsAt(m, lsda, query, actions, site, at, i, v)
    decreases fuel
  {
    var action := ParseAction(m, at).value;
    var reaction := React(m, lsda, query, actions, site, action).value;
    n := 0;
    if reaction.None? && action.nextOffset != 0 {
      var next := action.NextAddress();
      n := ChainFirst(m, lsda, query, actions, site, next, fuel - 1);
      forall i: nat, v | ReactsAt(m, lsda, query, actions, site, at, i, v)
        ensures i > 0 && ReactsAt(m, lsda, query, actions, site, next, i - 1, v)
      {
      }
      n := n + 1;
    }
  }

  /** The outer loop from site k on returns at the first place that lets it, or finds none. */
  lemma {:induction false} SitesFirst(m: Mem, lsda: Lsda, query: Query, actions: Actions, start: nat, fuel: nat)
    returns (k: nat, n: nat)
    requires ScanSites(m, lsda, query, actions, lsda.callSites + 4 * start, fuel).Ok?
    ensures var verdict := ScanSites(m, lsda, query, actions, lsda.callSites + 4 * start, fuel).value;
            && (verdict == ContinueUnwind ==>
                  forall j: nat, i: nat, v | start <= j :: !Yields(m, lsda, query, actions, j, i, v))
            && (verdict != ContinueUnwind ==>
                  && start <= k && Yields(m, lsda, query, actions, k, n, verdict)
                  && forall j: nat, i: nat, v | start <= j && Before(j, i, k, n) ::
                       !Yields(m, lsda, query, actions, j, i, v))
    decreases lsda.callSitesEnd - (lsda.callSites + 4 * start)
  {
    var p := lsda.callSites + 4 * start;
    k, n := start, 0;
    if p >= lsda.callSitesEnd {
      forall j: nat, i: nat, v | start <= j
        ensures !Yields(m, lsda, query, actions, j, i, v)
      {
        assert SiteAt(m, lsda, j).None?;
      }
    } else {
      var site := ParseCallSite(m, p).value;
      assert SiteAt(m, lsda, start) == Some(site);
      var reaction := ScanSite(m, lsda, query, actions, site, fuel).value;
      if Relevant(query, site) && site.action != 0 {
        n := ChainFirst(m, lsda, query, actions, site, ChainStart(lsda, site), fuel);
      }
      if reaction.None? {
        assert lsda.callSites + 4 * (start + 1) == p + CALL_SITE_SIZE;
        k, n := SitesFirst(m, lsda, query, actions, start + 1, fuel);
      }
    }
  }

  /**
   The routine, whatever its flags, returns at the first place in scan order that lets it, and
   continues the unwind exactly if no place does.
   */
  lemma {:induction false} ScanFirst(m: Mem, raw: u64, query: Query, actions: Actions, fuel: nat)
    returns (k: nat, n: nat)
    requires Scan(m, raw, query, actions, fuel).Ok?
    ensures var lsda, verdict := ParseLsda(m, raw).value, Scan(m, raw, query, actions, fuel).value;
            && (verdict == ContinueUnwind <==> forall j: nat, i: nat, v :: !Yields(m, lsda, query, actions, j, i, v))
            && (verdict != ContinueUnwind ==>
                  && Yields(m, lsda, query, actions, k, n, verdict)
                  && forall j: nat, i: nat, v | Before(j, i, k, n) :: !Yields(m, lsda, query, actions, j, i, v))
  {
    k, n := SitesFirst(m, ParseLsda(m, raw).value, query, actions, 0, fuel);
  }

  /** Action n of call site k catches: it is a handler whose type can_handle accepts. */
  predicate Catches(m: Mem, lsda: Lsda, query: Query, k: nat, n: nat) {
    var site := SiteAt(m, lsda, k);
    && site.Some? && Relevant(query, site.value) && site.value.action != 0
    && var action := ActionAt(m, ChainStart(lsda, site.value), n);
       && action.Some? && action.value.typeIndex != 0
       && var catchType := TypeFor(m, lsda, action.value);
          catchType.Ok? && CanHandle(catchType.value, query.thrownType)
  }

  /**
   A search finds a handler exactly if some action with a type, on a site that covers the
   throwing instruction and has a landing pad, passes can_handle.
   */
  lemma {:induction false} SearchFindsHandler(m: Mem, raw: u64, query: Query, fuel: nat)
    requires Scan(m, raw, query, SEARCH, fuel).Ok?
    ensures var lsda, verdict := ParseLsda(m, raw).value, Scan(m, raw, query, SEARCH, fuel).value;
            && verdict in {HandlerFound, ContinueUnwind}
            && (verdict == HandlerFound <==> exists k: nat, n: nat :: Catches(m, lsda, query, k, n))
  {
    var lsda, verdict := ParseLsda(m, raw).value, Scan(m, raw, query, SEARCH, fuel).value;
    var k, n := ScanFirst(m, raw, query, SEARCH, fuel);
    forall j: nat, i: nat | Catches(m, lsda, query, j, i)
      ensures Yields(m, lsda, query, SEARCH, j, i, HandlerFound)
    {
    }
    if verdict != ContinueUnwind {
      assert Catches(m, lsda, query, k, n);
    }
  }

  /** What the routine installs at place (k, n). */
  function Landed(m: Mem, lsda: Lsda, query: Query, k: nat, n: nat): Verdict
    requires Catches(m, lsda, query, k, n)
  {
    var site := SiteAt(m, lsda, k).value;
    Install(ActionAt(m, ChainStart(lsda, site), n).value.typeIndex, Wrap(query.function_ + site.landingPad))
  }

  lemma {:induction false} CatchesYields(m: Mem, lsda: Lsda, query: Query, handlerFrame: bool, k: nat, n: nat)
    ensures Catches(m, lsda, query, k, n) <==> Yields(m, lsda, query, SEARCH, k, n, HandlerFound)
    ensures Catches(m, lsda, query, k, n) ==>
              Yields(m, lsda, query, Cleanup(handlerFrame), k, n, Landed(m, lsda, query, k, n))
  {
  }

  /**
   Where a search finds a handler at place (k, n), the cleanup call on the same frame installs
   the landing pad of that place or of an earlier one; of an earlier one only for a cleanup.
   */
  lemma {:induction false} CleanupFollowsSearch(m: Mem, raw: u64, query: Query, handlerFrame: bool, fuel: nat)
    returns (k: nat, n: nat, j: nat, i: nat)
    requires Scan(m, raw, query, SEARCH, fuel) == Ok(HandlerFound)
    ensures var lsda := ParseLsda(m, raw).value;
            && Catches(m, lsda, query, k, n)
            && (forall b: nat, a: nat | Before(b, a, k, n) :: !Catches(m, lsda, query, b, a))
            && var verdict := Scan(m, raw, query, Cleanup(handlerFrame), fuel);
               && verdict.Ok? && verdict.value.Install?
               && Yields(m, lsda, query, Cleanup(handlerFrame), j, i, verdict.value)
               && ((j == k && i == n) || (Before(j, i, k, n) && verdict.value.typeIndex == 0))
  {
    var lsda := ParseLsda(m, raw).value;
    var actions := Cleanup(handlerFrame);
    SitesAgree(m, lsda, query, handlerFrame, lsda.callSites, fuel);
    k, n := ScanFirst(m, raw, query, SEARCH, fuel);
    j, i := ScanFirst(m, raw, query, actions, fuel);
    forall b: nat, a: nat
      ensures Catches(m, lsda, query, b, a) <==> Yields(m, lsda, query, SEARCH, b, a, HandlerFound)
    {
      CatchesYields(m, lsda, query, handlerFrame, b, a);
    }
    var verdict := Landed(m, lsda, query, k, n);
    CatchesYields(m, lsda, query, handlerFrame, k, n);
    assert Yields(m, lsda, query, actions, k, n, verdict) && !Before(k, n, j, i);
    if Before(j, i, k, n) {
      assert !Catches(m, lsda, query, j, i);
    }
  }

  /** The two calls on one chain: a search that ends in a verdict lets the cleanup call install. */
  lemma {:induction false} ChainsAgree(m: Mem, lsda: Lsda, query: Query, handlerFrame: bool, site: CallSite,
                                       at: int, fuel: nat)
    ensures var searched := ScanChain(m, lsda, query, SEARCH, site, at, fuel);
            var cleaned := ScanChain(m, lsda, query, Cleanup(handlerFrame), site, at, fuel);
            && (searched.Ok? ==> searched.value in {None, Some(HandlerFound)} && cleaned.Ok?)
            && (searched == Ok(Some(HandlerFound)) ==> cleaned.value.Some?)
            && (cleaned.Ok? && cleaned.value.Some? ==> cleaned.value.value.Install?)
            && (searched == Ok(None) && cleaned.value.Some? ==> cleaned.value.value.typeIndex == 0)
    decreases fuel
  {
    if fuel > 0 && ParseAction(m, at).Ok? {
      ChainsAgree(m, lsda, query, handlerFrame, site, ParseAction(m, at).value.NextAddress(), fuel - 1);
    }
  }

  /** The two calls on the whole table, whether or not the rest of it can be read. */
  lemma {:induction false} SitesAgree(m: Mem, lsda: Lsda, query: Query, handlerFrame: bool, p: int, fuel: nat)
    ensures var searched := ScanSites(m, lsda, query, SEARCH, p, fuel);
            var cleaned := ScanSites(m, lsda, query, Cleanup(handlerFrame), p, fuel);
            && (searched.Ok? ==> searched.value in {ContinueUnwind, HandlerFound} && cleaned.Ok?)
            && (cleaned.Ok? ==> cleaned.value != HandlerFound)
            && (searched == Ok(HandlerFound) ==> cleaned.value.Install?)
            && (searched == Ok(ContinueUnwind) && cleaned.value.Install? ==> cleaned.value.typeIndex == 0)
    decreases lsda.callSitesEnd - p
  {
    if p < lsda.callSitesEnd && ParseCallSite(m, p).Ok? {
      var site := ParseCallSite(m, p).value;
      ChainsAgree(m, lsda, query, handlerFrame, site, ChainStart(lsda, site), fuel);
      SitesAgree(m, lsda, query, handlerFrame, p + CALL_SITE_SIZE, fuel);
    }
  }

  /** The verdicts of the two calls on one frame: the cleanup call fails only where the search does. */
  lemma {:induction false} CallsAgree(m: Mem, raw: u64, query: Query, handlerFrame: bool, fuel: nat)
    ensures var searched, cleaned := Scan(m, raw, query, SEARCH, fuel),
                                      Scan(m, raw, query, Cleanup(handlerFrame), fuel);
            && (searched.Ok? ==> searched.value in {ContinueUnwind, HandlerFound} && cleaned.Ok?)
            && (cleaned.Ok? ==> cleaned.value != HandlerFound)
            && (searched == Ok(HandlerFound) ==> cleaned.value.Install?)
            && (searched == Ok(ContinueUnwind) && cleaned.value.Install? ==> cleaned.value.typeIndex == 0)
  {
    if ParseLsda(m, raw).Ok? {
      var lsda := ParseLsda(m, raw).value;
      SitesAgree(m, lsda, query, handlerFrame, lsda.callSites, fuel);
    }
  }

  /////////////////////////////////////////////////////////////////////////////
  // Finite tables
  /////////////////////////////////////////////////////////////////////////////

  /** The chain at `at` ends within n actions, which can be read together with their types. */
  predicate ChainEnds(m: Mem, lsda: Lsda, at: int, n: nat)
    decreases n, at
  {
    && n > 0 && ParseAction(m, at).Ok?
    && var action := ParseAction(m, at).value;
       && (action.typeIndex != 0 ==> TypeFor(m, lsda, action).Ok?)
       && (action.nextOffset != 0 ==> ChainEnds(m, lsda, action.NextAddress(), n - 1))
  }

  /** Every call site can be read and, where the routine looks at its actions, has such a chain. */
  ghost predicate Finite(m: Mem, lsda: Lsda, query: Query, n: nat) {
    forall k: nat | lsda.callSites + 4 * k < lsda.callSitesEnd ::
      && SiteAt(m, lsda, k).Some?
      && var site := SiteAt(m, lsda, k).value;
         Relevant(query, site) && site.action != 0 ==> ChainEnds(m, lsda, ChainStart(lsda, site), n)
  }

  lemma {:induction false} ChainCompletes(m: Mem, lsda: Lsda, query: Query, actions: Actions, site: CallSite,
                                          at: int, fuel: nat)
    requires ChainEnds(m, lsda, at, fuel)
    ensures ScanChain(m, lsda, query, actions, site, at, fuel).Ok?
    decreases fuel
  {
    var action := ParseAction(m, at).value;
    if action.nextOffset != 0 {
      ChainCompletes(m, lsda, query, actions, site, action.NextAddress(), fuel - 1);
    }
  }

  lemma {:induction false} SitesComplete(m: Mem, lsda: Lsda, query: Query, actions: Actions, start: nat, fuel: nat)
    requires Finite(m, lsda, query, fuel)
    ensures ScanSites(m, lsda, query, actions, lsda.callSites + 4 * start, fuel).Ok?
    decreases lsda.callSitesEnd - (lsda.callSites + 4 * start)
  {
    var p := lsda.callSites + 4 * start;
    if p < lsda.callSitesEnd {
      var site := SiteAt(m, lsda, start).value;
      if Relevant(query, site) && site.action != 0 {
        ChainCompletes(m, lsda, query, actions, site, ChainStart(lsda, site), fuel);
      }
      assert lsda.callSites + 4 * (start + 1) == p + CALL_SITE_SIZE;
      SitesComplete(m, lsda, query, actions, start + 1, fuel);
    }
  }

  /** On every finite table the search answers, and answers HandlerFound exactly if something catches. */
  lemma {:induction false} SearchIsExact(m: Mem, raw: u64, query: Query, fuel: nat)
    requires ParseLsda(m, raw).Ok? && Finite(m, ParseLsda(m, raw).value, query, fuel)
    ensures var lsda := ParseLsda(m, raw).value;
            Scan(m, raw, query, SEARCH, fuel) ==
            Ok(if exists k: nat, n: nat :: Catches(m, lsda, query, k, n) then HandlerFound else ContinueUnwind)
  {
    SitesComplete(m, ParseLsda(m, raw).value, query, SEARCH, 0, fuel);
    SearchFindsHandler(m, raw, query, fuel);
  }

  /////////////////////////////////////////////////////////////////////////////
  // The step budget
  /////////////////////////////////////////////////////////////////////////////

  lemma {:induction false} ChainFuel(m: Mem, lsda: Lsda, query: Query, actions: Actions, site: CallSite, at: int,
                                     fuel: nat, more: nat)
    requires fuel <= more
    ensures Settles(ScanChain(m, lsda, query, actions, site, at, fuel),
                    ScanChain(m, lsda, query, actions, site, at, more))
    decreases fuel
  {
    if fuel > 0 && ParseAction(m, at).Ok? {
      ChainFuel(m, lsda, query, actions, site, ParseAction(m, at).value.NextAddress(), fuel - 1, more - 1);
    }
  }

  lemma {:induction false} SitesFuel(m: Mem, lsda: Lsda, query: Query, actions: Actions, p: int, fuel: nat, more: nat)
    requires fuel <= more
    ensures Settles(ScanSites(m, lsda, query, actions, p, fuel), ScanSites(m, lsda, query, actions, p, more))
    decreases lsda.callSitesEnd - p
  {
    if p < lsda.callSitesEnd && ParseCallSite(m, p).Ok? {
      var site := ParseCallSite(m, p).value;
      ChainFuel(m, lsda, query, actions, site, ChainStart(lsda, site), fuel, more);
      SitesFuel(m, lsda, query, actions, p + CALL_SITE_SIZE, fuel, more);
    }
  }

  /** An answer of the routine does not depend on the budget. */
  lemma {:induction false} ScanFuel(m: Mem, raw: u64, query: Query, actions: Actions, fuel: nat, more: nat)
    requires fuel <= more
    ensures Settles(Scan(m, raw, query, actions, fuel), Scan(m, raw, query, actions, more))
  {
    if ParseLsda(m, raw).Ok? {
      var lsda := ParseLsda(m, raw).value;
      SitesFuel(m, lsda, query, actions, lsda.callSites, fuel, more);
    }
  }

  /////////////////////////////////////////////////////////////////////////////
  // catch (...)
  /////////////////////////////////////////////////////////////////////////////

  /**
   The routine passes the type of the action as the thrown exception and the thrown type as the
   type to catch.  So catch (...), whose entry in the type table is null, is accepted exactly if
   the thrown type is null too, and a null thrown type is accepted by every handler.
   */
  lemma {:induction false} CatchAllNeedsNullType(m: Mem, lsda: Lsda, query: Query, k: nat, n: nat)
    requires SiteAt(m, lsda, k).Some? && Relevant(query, SiteAt(m, lsda, k).value)
    requires SiteAt(m, lsda, k).value.action != 0
    requires var action := ActionAt(m, ChainStart(lsda, SiteAt(m, lsda, k).value), n);
             action.Some? && action.value.typeIndex != 0 && TypeFor(m, lsda, action.value).Ok?
    ensures var catchType := TypeFor(m, lsda, ActionAt(m, ChainStart(lsda, SiteAt(m, lsda, k).value), n).value).value;
            && (catchType == 0 ==> (Catches(m, lsda, query, k, n) <==> query.thrownType == 0))
            && (query.thrownType == 0 ==> Catches(m, lsda, query, k, n))
  {
  }

  /** An LSDA at address 100: one call site, one action at 109, and a null entry in the type table. */
  function CatchAllByte(address: int): byte {
    if address == 100 then 0xFF
    else if address == 102 then 16
    else if address == 103 then 1
    else if address == 104 then 4
    else if address == 106 then 10
    else if address == 107 then 5
    else if address == 108 then 1
    else if address == 109 then 1
    else 0
  }

  function CatchAllTable(): Mem {
    map address | 100 <= address < 119 :: CatchAllByte(address)
  }

  predicate IsZero(m: Mem, p: int) {
    Read8(m, p) == Ok(0)
  }

  lemma {:induction false} ReadZeros(m: Mem, p: int, n: nat)
    requires forall q | p <= q < p + n :: IsZero(m, q)
    ensures ReadLe(m, p, n) == Ok(0)
    decreases n
  {
    if n > 0 {
      assert IsZero(m, p);
      ReadZeros(m, p + 1, n - 1);
    }
  }

  /** A catch (...) around the throwing instruction that the search passes by. */
  lemma {:induction false} CatchAllMissed()
    ensures Scan(CatchAllTable(), 100, Query(0x40_0000, 0x40_0003, 0x50_0000), SEARCH, 1) == Ok(ContinueUnwind)
  {
    var m, lsda, query := CatchAllTable(), Lsda(119, 105, 109), Query(0x40_0000, 0x40_0003, 0x50_0000);
    var site, action := CallSite(0, 10, 5, 1), Action(1, 0, 109);
    assert ParseLsda(m, 100) == Ok(lsda) && ParseCallSite(m, 105) == Ok(site);
    assert ParseAction(m, 109) == Ok(action) by {
      assert NumberLength(m, 110, MAX_BYTES) == Ok(1);
    }
    assert React(m, lsda, query, SEARCH, site, action) == Ok(None) by {
      ReadZeros(m, 111, 8);
      assert lsda.types - 8 * action.typeIndex == 111;
    }
    assert ScanSite(m, lsda, query, SEARCH, site, 1) == Ok(None);
    assert ScanSites(m, lsda, query, SEARCH, 109, 1) == Ok(ContinueUnwind);
  }
}
