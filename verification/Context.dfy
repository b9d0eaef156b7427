/**
 The unwinding context that the phases and the personality routine share
 (_Unwind_Context in ia64_cxx_abi.cpp), and the personality routine in the form of its
 source: cursors over the tables that its two loops advance.
 */
module Context {
  import opened Words
  import opened Memory
  import opened Leb128
  import opened Registers
  import opened EhFrame
  import opened Personality
  import opened TwoPhase

  /** _Unwind_Exception, with the type that __cxa_throw has stored in front of it. */
  class ExceptionObject {
    const address: u64
    const thrownType: u64
    var private1: u64
    var private2: u64

    constructor (address: u64, thrownType: u64)
      ensures this.address == address && this.thrownType == thrownType
    {
      this.address, this.thrownType := address, thrownType;
      private1, private2 := 0, 0;
    }
  }

  /** _Unwind_Context.  `calls` is the history of the personality calls made with it. */
  class UnwindContext {
    var fde: Fde
    const state: RegisterState
    const exception: ExceptionObject
    ghost var calls: seq<Call>

    constructor (state: RegisterState, exception: ExceptionObject)
      ensures this.state == state && this.exception == exception && calls == []
    {
      fde := NO_FDE;
      this.state, this.exception := state, exception;
      calls := [];
    }

    /** _Unwind_SetGR: set and commit. */
    method SetGr(index: nat, value: u64) returns (r: Outcome<()>)
      requires state.Settled()
      modifies state
      ensures state.Settled()
      ensures index < NUM_REGISTERS ==> r == Ok(()) && state.committed == old(state.committed)[index := value]
      ensures index >= NUM_REGISTERS ==> r == Abort && state.committed == old(state.committed)
    {
      r := state.Set(index, value);
      if r.Ok? {
        state.Commit();
      }
    }

    /** _Unwind_SetIP. */
    method SetIp(value: u64)
      requires state.Settled()
      modifies state
      ensures state.Settled() && state.committed == old(state.committed)[RIP := value]
    {
      state.SetIp(value);
      state.Commit();
    }

    /** _Unwind_GetIP. */
    method GetIp() returns (ip: u64)
      ensures ip == state.committed[RIP]
    {
      ip := state.GetIp();
    }

    /** run_landing_pad. */
    method RunLandingPad(typeIndex: u64, landingPad: u64)
      requires state.Settled()
      modifies state
      ensures state.Settled()
      ensures state.committed == Landing(old(state.committed), exception.address, typeIndex, landingPad)
      ensures state.committed[0] == exception.address && state.committed[1] == typeIndex
      ensures state.committed[RIP] == landingPad
      ensures forall r: nat | 1 < r < NUM_REGISTERS && r != RIP :: state.committed[r] == old(state.committed)[r]
    {
      var first := SetGr(0, exception.address);
      var second := SetGr(1, typeIndex);
      SetIp(landingPad);
    }
  }

  /** struct LSDA: the tables with the cursors next_cs_entry_ptr and current_action. */
  class LsdaCursor {
    const m: Mem
    const lsda: Lsda
    var nextSite: int
    var current: Action

    constructor (m: Mem, lsda: Lsda)
      ensures this.m == m && this.lsda == lsda && nextSite == lsda.callSites
    {
      this.m, this.lsda := m, lsda;
      nextSite := lsda.callSites;
      current := Action(0, 0, 0);
    }

    /** next_call_site_entry; None at the end of the table. */
    method NextCallSite() returns (r: Outcome<Option<CallSite>>)
      modifies this`nextSite
      ensures old(nextSite) >= lsda.callSitesEnd ==> r == Ok(None) && nextSite == old(nextSite)
      ensures old(nextSite) < lsda.callSitesEnd ==>
                match ParseCallSite(m, old(nextSite))
                case Ok(site) => r == Ok(Some(site)) && nextSite == old(nextSite) + CALL_SITE_SIZE
                case Abort => r == Abort
                case Fault => r == Fault
                case Timeout => r == Timeout
    {
      if nextSite >= lsda.callSitesEnd {
        return Ok(None);
      }
      var site :- ParseCallSite(m, nextSite);
      nextSite := nextSite + CALL_SITE_SIZE;
      return Ok(Some(site));
    }

    method LoadAction(at: int) returns (r: Outcome<()>)
      modifies this`current
      ensures match ParseAction(m, at)
              case Ok(action) => r == Ok(()) && current == action
              case Abort => r == Abort
              case Fault => r == Fault
              case Timeout => r == Timeout
    {
      var typeIndex :- Read8(m, at);
      var nextOffset :- ReadSleb128(m, at + 1);
      current := Action(typeIndex, nextOffset, at);
      return Ok(());
    }
  }

  /** The inner loop of the routine: the actions of one call site. */
  method ScanActions(cursor: LsdaCursor, context: UnwindContext, query: Query, actions: Actions, site: CallSite,
                     fuel: nat)
    returns (r: Outcome<Option<Verdict>>)
    requires context.state.Settled() && site.action != 0
    modifies cursor`current, context.state
    ensures context.state.Settled()
    ensures r == ScanChain(cursor.m, cursor.lsda, query, actions, site, ChainStart(cursor.lsda, site), fuel)
    ensures context.state.committed ==
            if r.Ok? && r.value.Some? then Resulting(context, old(context.state.committed), r.value.value)
            else old(context.state.committed)
  {
    var m, lsda := cursor.m, cursor.lsda;
    if fuel == 0 {
      return Timeout;
    }
    var loaded :- cursor.LoadAction(ChainStart(lsda, site));
    ghost var start := ChainStart(lsda, site);
    var left := fuel;
    while true
      invariant 0 < left <= fuel && ParseAction(m, cursor.current.at) == Ok(cursor.current)
      invariant ScanChain(m, lsda, query, actions, site, start, fuel) ==
                ScanChain(m, lsda, query, actions, site, cursor.current.at, left)
      invariant context.state.Settled() && context.state.committed == old(context.state.committed)
      decreases left
    {
      var action := cursor.current;
      if action.typeIndex == 0 {
        if actions.cleanup {
          context.RunLandingPad(action.typeIndex, Wrap(query.function_ + site.landingPad));
          return Ok(Some(Install(action.typeIndex, Wrap(query.function_ + site.landingPad))));
        }
      } else {
        var catchType :- TypeFor(m, lsda, action);
        if CanHandle(catchType, query.thrownType) {
          if actions.search {
            return Ok(Some(HandlerFound));
          }
          context.RunLandingPad(action.typeIndex, Wrap(query.function_ + site.landingPad));
          return Ok(Some(Install(action.typeIndex, Wrap(query.function_ + site.landingPad))));
        }
      }
      if action.nextOffset == 0 {
        return Ok(None);
      }
      left := left - 1;
      if left == 0 {
        return Timeout;
      }
      loaded :- cursor.LoadAction(action.NextAddress());
    }
  }

  /** The registers after a verdict: a landing pad has been set up only for Install. */
  function Resulting(context: UnwindContext, regs: RegisterFile, verdict: Verdict): RegisterFile {
    match verdict
    case Install(typeIndex, landingPad) => Landing(regs, context.exception.address, typeIndex, landingPad)
    case _ => regs
  }

  /** __gxx_personality_v0. */
  method GxxPersonality(m: Mem, context: UnwindContext, actions: Actions, fuel: nat) returns (r: Outcome<Verdict>)
    requires context.state.Settled()
    modifies context.state
    ensures context.state.Settled()
    ensures var ip: int := old(context.state.committed)[RIP];
            r == Scan(m, context.fde.lsda, Query(context.fde.pcBegin, Wrap(ip - 1), context.exception.thrownType),
                      actions, fuel)
    ensures context.state.committed ==
            if r.Ok? then Resulting(context, old(context.state.committed), r.value) else old(context.state.committed)
  {
    var ip := context.GetIp();
    var query := Query(context.fde.pcBegin, Wrap((ip as int) - 1), context.exception.thrownType);
    var lsda :- ParseLsda(m, context.fde.lsda);
    var cursor := new LsdaCursor(m, lsda);
    while true
      invariant ScanSites(m, lsda, query, actions, lsda.callSites, fuel) ==
                ScanSites(m, lsda, query, actions, cursor.nextSite, fuel)
      invariant context.state.Settled() && context.state.committed == old(context.state.committed)
      decreases lsda.callSitesEnd - cursor.nextSite
    {
      var entry :- cursor.NextCallSite();
      if entry.None? {
        return Ok(ContinueUnwind);
      }
      var site := entry.value;
      if Relevant(query, site) && site.action != 0 {
        var reaction :- ScanActions(cursor, context, query, actions, site, fuel);
        if reaction.Some? {
          return Ok(reaction.value);
        }
      }
    }
  }
}
