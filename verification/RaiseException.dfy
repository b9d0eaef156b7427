/**
 The two phases in the form of ia64_cxx_abi.cpp: loops that update the context's FDE, the
 register state and the exception object in place.
 */
module RaiseException {
  import opened Words
  import opened Memory
  import opened Loops
  import opened Registers
  import opened EhFrame
  import opened Personality
  import opened TwoPhase
  import opened Context
  import EhFrameObjects
  import Unwind

  /** The context belongs to the process. */
  predicate For(context: UnwindContext, proc: Process) {
    context.exception.address == proc.exception && context.exception.thrownType == proc.thrownType
  }

  /** find_and_store_fde; false: the end of the stack. */
  method FindAndStoreFde(proc: Process, context: UnwindContext) returns (r: Outcome<bool>)
    modifies context`fde
    ensures match WalkerOf(proc).frame(context.state.committed)
            case Ok(fde) => r == Ok(fde.Exists()) && context.fde == fde
            case Abort => r == Abort
            case Fault => r == Fault
            case Timeout => r == Timeout
  {
    var ip := context.state.GetIp();
    var found :- EhFrameObjects.Find(proc.m, proc.section, ip);
    context.fde := found;
    return Ok(found.Exists());
  }

  /** The word that the personality pointer of a frame's CIE points to, and 0 if there is no pointer. */
  function RoutineOf(m: Mem, fde: Fde): Outcome<u64> {
    if fde.cie.personality == 0 then Ok(0) else Read64(m, fde.cie.personality)
  }

  /** private_personality. */
  method CallPersonality(proc: Process, context: UnwindContext, actions: Actions) returns (r: Outcome<Verdict>)
    requires context.state.Settled() && For(context, proc)
    modifies context`calls, context.state
    ensures context.state.Settled()
    ensures r == WalkerOf(proc).consult(context.fde, old(context.state.committed), actions)
    ensures var routine := RoutineOf(proc.m, context.fde);
            && (routine == Ok(0) ==> r == Ok(ContinueUnwind))
            && (routine.Ok? && routine.value != 0 ==>
                  var ip: int := old(context.state.committed)[RIP];
                  r == Scan(proc.m, context.fde.lsda, Query(context.fde.pcBegin, Wrap(ip - 1), proc.thrownType),
                            actions, proc.steps))
    ensures r.Ok? ==>
              context.calls == old(context.calls) + [Call(context.fde, old(context.state.committed), actions, r.value)]
    ensures r.Ok? ==> context.state.committed == Resulting(context, old(context.state.committed), r.value)
  {
    ghost var regs := context.state.committed;
    var verdict := ContinueUnwind;
    if context.fde.cie.personality != 0 {
      var routine :- Read64(proc.m, context.fde.cie.personality);
      if routine != 0 {
        verdict :- GxxPersonality(proc.m, context, actions, proc.steps);
      }
    }
    context.calls := context.calls + [Call(context.fde, regs, actions, verdict)];
    return Ok(verdict);
  }

  /** dwarf4::unwind with the context's FDE. */
  method UnwindContextFrame(proc: Process, context: UnwindContext) returns (r: Outcome<()>)
    requires context.state.Settled()
    modifies context.state
    ensures match WalkerOf(proc).caller(context.fde, old(context.state.committed))
            case Ok(regs) => r == Ok(()) && context.state.committed == regs && context.state.Settled()
            case Abort => r == Abort
            case Fault => r == Fault
            case Timeout => r == Timeout
  {
    r := Unwind.UnwindFrame(proc.m, context.fde, context.state, proc.steps);
  }

  /** The turns of a phase from regs on, behind the calls made before. */
  function WalkAfter<R>(turn: RegisterFile -> Outcome<Turn<R>>, calls: seq<Call>, regs: RegisterFile,
                        frames: nat): Outcome<Walked<R>> {
    var walked :- Walk(turn, regs, frames);
    Ok(walked.(calls := calls + walked.calls))
  }

  lemma {:induction false} WalkOn<R>(turn: RegisterFile -> Outcome<Turn<R>>, calls: seq<Call>, regs: RegisterFile,
                                     frames: nat)
    requires frames > 0
    ensures WalkAfter(turn, calls, regs, frames) ==
            match turn(regs)
            case Ok(Stop(last, result)) => Ok(Walked(calls + last, result))
            case Ok(Climb(call, next)) => WalkAfter(turn, calls + [call], next, frames - 1)
            case Abort => Abort
            case Fault => Fault
            case Timeout => Timeout
  {
    if turn(regs).Ok? && turn(regs).value.Climb? {
      var call, next := turn(regs).value.call, turn(regs).value.next;
      var rest := Walk(turn, next, frames - 1);
      if rest.Ok? {
        assert calls + ([call] + rest.value.calls) == (calls + [call]) + rest.value.calls;
      }
    }
  }

  /**
   The turns of a phase as an unknown function.  The triggers leave it to SearchOnce and
   CleanupOnce to look inside; their loops need not.
   */
  ghost predicate IsSearch(turns: RegisterFile -> Outcome<Turn<u64>>, proc: Process) {
    forall at: RegisterFile {:trigger SearchTurn(WalkerOf(proc), at)} :: turns(at) == SearchTurn(WalkerOf(proc), at)
  }

  ghost predicate IsCleanup(turns: RegisterFile -> Outcome<Turn<RegisterFile>>, proc: Process, handler: u64) {
    forall at: RegisterFile {:trigger CleanupTurn(WalkerOf(proc), handler, at)} ::
      turns(at) == CleanupTurn(WalkerOf(proc), handler, at)
  }

  /** The body of the loop in private_phase1; a reason ends it. */
  method SearchOnce(proc: Process, context: UnwindContext, ghost turns: RegisterFile -> Outcome<Turn<u64>>)
    returns (r: Outcome<Option<Reason>>)
    requires context.state.Settled() && For(context, proc) && IsSearch(turns, proc)
    modifies context, context.state, context.exception`private1
    ensures match turns(old(context.state.committed))
            case Ok(Stop(last, result)) =>
              && r == Ok(Some(if result.Some? then NoReason else EndOfStack))
              && context.calls == old(context.calls) + last
              && context.exception.private1 == if result.Some? then result.value else old(context.exception.private1)
            case Ok(Climb(call, next)) =>
              && r == Ok(None) && context.calls == old(context.calls) + [call]
              && context.state.committed == next && context.state.Settled()
              && context.exception.private1 == old(context.exception.private1)
            case Abort => r == Abort
            case Fault => r == Fault
            case Timeout => r == Timeout
  {
    assert turns(context.state.committed) == SearchTurn(WalkerOf(proc), context.state.committed);
    var stored :- FindAndStoreFde(proc, context);
    if !stored {
      return Ok(Some(EndOfStack));
    }
    var verdict :- CallPersonality(proc, context, SEARCH);
    match verdict {
      case HandlerFound =>
        context.exception.private1 := context.fde.pcBegin;
        return Ok(Some(NoReason));
      case ContinueUnwind =>
      case Install(_, _) =>
        return Abort;
    }
    var unwound :- UnwindContextFrame(proc, context);
    return Ok(None);
  }

  /** The part of either phase before its loop. */
  method LeaveFirstFrame(proc: Process, context: UnwindContext) returns (r: Outcome<bool>)
    requires context.state.Settled()
    modifies context`fde, context.state
    ensures match FirstFrame(WalkerOf(proc), old(context.state.committed))
            case Ok(None) => r == Ok(false)
            case Ok(Some(next)) => r == Ok(true) && context.state.committed == next && context.state.Settled()
            case Abort => r == Abort
            case Fault => r == Fault
            case Timeout => r == Timeout
  {
    var stored :- FindAndStoreFde(proc, context);
    if !stored {
      return Ok(false);
    }
    var unwound :- UnwindContextFrame(proc, context);
    return Ok(true);
  }

  /** private_phase1. */
  method PrivatePhase1(proc: Process, context: UnwindContext, frames: nat) returns (r: Outcome<Reason>)
    requires context.state.Settled() && For(context, proc) && context.calls == []
    modifies context, context.state, context.exception`private1
    ensures match Phase1(WalkerOf(proc), old(context.state.committed), frames)
            case Ok(Walked(calls, handler)) =>
              && r == Ok(if handler.Some? then NoReason else EndOfStack) && context.calls == calls
              && context.exception.private1 == if handler.Some? then handler.value else old(context.exception.private1)
            case Abort => r == Abort
            case Fault => r == Fault
            case Timeout => r == Timeout
  {
    var left :- LeaveFirstFrame(proc, context);
    if !left {
      return Ok(EndOfStack);
    }
    r := SearchLoop(proc, context, frames, SearchTurns(WalkerOf(proc)));
  }

  method SearchLoop(proc: Process, context: UnwindContext, frames: nat, ghost turns: RegisterFile -> Outcome<Turn<u64>>)
    returns (r: Outcome<Reason>)
    requires context.state.Settled() && For(context, proc) && context.calls == [] && IsSearch(turns, proc)
    modifies context, context.state, context.exception`private1
    ensures match Walk<u64>(turns, old(context.state.committed), frames)
            case Ok(Walked(calls, handler)) =>
              && r == Ok(if handler.Some? then NoReason else EndOfStack) && context.calls == calls
              && context.exception.private1 == if handler.Some? then handler.value else old(context.exception.private1)
            case Abort => r == Abort
            case Fault => r == Fault
            case Timeout => r == Timeout
  {
    ghost var start := context.state.committed;
    var budget := frames;
    while budget > 0
      invariant context.state.Settled() && context.exception.private1 == old(context.exception.private1)
      invariant WalkAfter<u64>(turns, [], start, frames) ==
                WalkAfter<u64>(turns, context.calls, context.state.committed, budget)
    {
      WalkOn<u64>(turns, context.calls, context.state.committed, budget);
      var reason :- SearchOnce(proc, context, turns);
      if reason.Some? {
        return Ok(reason.value);
      }
      budget := budget - 1;
    }
    return Timeout;
  }

  /** What the body of the loop in private_phase2 decides: to resume, to return, or to go on. */
  datatype Decision = Resume | Return(reason: Reason) | GoOn

  method CleanupOnce(proc: Process, context: UnwindContext, ghost turns: RegisterFile -> Outcome<Turn<RegisterFile>>)
    returns (r: Outcome<Decision>)
    requires context.state.Settled() && For(context, proc) && IsCleanup(turns, proc, context.exception.private1)
    modifies context, context.state
    ensures match turns(old(context.state.committed))
            case Ok(Stop(last, result)) =>
              && r == Ok(if result.Some? then Resume else Return(EndOfStack))
              && context.calls == old(context.calls) + last
              && (result.Some? ==> context.state.committed == result.value)
            case Ok(Climb(call, next)) =>
              && r == Ok(GoOn) && context.calls == old(context.calls) + [call]
              && context.state.committed == next && context.state.Settled()
            case Abort => r == Abort
            case Fault => r == Fault
            case Timeout => r == Timeout
  {
    assert turns(context.state.committed) ==
           CleanupTurn(WalkerOf(proc), context.exception.private1, context.state.committed);
    var stored :- FindAndStoreFde(proc, context);
    if !stored {
      return Ok(Return(EndOfStack));
    }
    var actions := Cleanup(false);
    if context.exception.private1 == context.fde.pcBegin {
      actions := actions.(handlerFrame := true);
    }
    var verdict :- CallPersonality(proc, context, actions);
    match verdict {
      case Install(_, _) =>
        return Ok(Resume);
      case ContinueUnwind =>
      case HandlerFound =>
        return Abort;
    }
    var unwound :- UnwindContextFrame(proc, context);
    return Ok(GoOn);
  }

  /** private_phase2; resume() leaves with the committed registers. */
  method PrivatePhase2(proc: Process, context: UnwindContext, frames: nat) returns (r: Outcome<Raised>)
    requires context.state.Settled() && For(context, proc) && context.calls == []
    modifies context, context.state
    ensures match Phase2(WalkerOf(proc), context.exception.private1, old(context.state.committed), frames)
            case Ok(Walked(calls, resumed)) =>
              && r == Ok(if resumed.Some? then Resumed(resumed.value) else Returned(EndOfStack))
              && context.calls == calls
            case Abort => r == Abort
            case Fault => r == Fault
            case Timeout => r == Timeout
  {
    var left :- LeaveFirstFrame(proc, context);
    if !left {
      return Ok(Returned(EndOfStack));
    }
    r := CleanupLoop(proc, context, frames, CleanupTurns(WalkerOf(proc), context.exception.private1));
  }

  method CleanupLoop(proc: Process, context: UnwindContext, frames: nat,
                     ghost turns: RegisterFile -> Outcome<Turn<RegisterFile>>)
    returns (r: Outcome<Raised>)
    requires context.state.Settled() && For(context, proc) && context.calls == []
    requires IsCleanup(turns, proc, context.exception.private1)
    modifies context, context.state
    ensures match Walk(turns, old(context.state.committed), frames)
            case Ok(Walked(calls, resumed)) =>
              && r == Ok(if resumed.Some? then Resumed(resumed.value) else Returned(EndOfStack))
              && context.calls == calls
            case Abort => r == Abort
            case Fault => r == Fault
            case Timeout => r == Timeout
  {
    ghost var start := context.state.committed;
    var budget := frames;
    while budget > 0
      invariant context.state.Settled() && IsCleanup(turns, proc, context.exception.private1)
      invariant WalkAfter(turns, [], start, frames) == WalkAfter(turns, context.calls, context.state.committed, budget)
    {
      WalkOn(turns, context.calls, context.state.committed, budget);
      var decision :- CleanupOnce(proc, context, turns);
      match decision {
        case Resume =>
          return Ok(Resumed(context.state.committed));
        case Return(reason) =>
          return Ok(Returned(reason));
        case GoOn =>
      }
      budget := budget - 1;
    }
    return Timeout;
  }

  /** _Unwind_RaiseException, with the registers it has stored. */
  method Raise(proc: Process, exception: ExceptionObject, registers: RegisterFile, frames: nat)
    returns (r: Outcome<Raised>)
    requires exception.address == proc.exception && exception.thrownType == proc.thrownType
    modifies exception
    ensures r == TwoPhase.RaiseException(WalkerOf(proc), registers, frames)
  {
    exception.private1, exception.private2 := 0, 0;
    var state := new RegisterState(registers);
    var context := new UnwindContext(state, exception);
    var searched :- PrivatePhase1(proc, context, frames);
    if searched != NoReason {
      return Ok(Returned(searched));
    }
    state := new RegisterState(registers);
    context := new UnwindContext(state, exception);
    var cleaned :- PrivatePhase2(proc, context, frames);
    if cleaned.Resumed? || cleaned.reason != NoReason {
      return Ok(cleaned);
    }
    return Ok(Returned(FatalPhase2Error));
  }
}
