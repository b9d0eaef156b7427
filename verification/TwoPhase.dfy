/**
 _Unwind_RaiseException (ia64_cxx_abi.cpp): a search phase walks the frames until the
 personality routine of one finds a handler, then a cleanup phase walks them again from the
 same registers and installs a landing pad.  This module says what the phases compute and
 proves that they agree (sections 1.3 and 1.6 of the Itanium C++ ABI: Exception Handling).
 */
module TwoPhase {
  import opened Words
  import opened Memory
  import opened Loops
  import opened Registers
  import opened EhFrame
  import opened Personality
  import Unwind

  /**
   The process that throws: its memory, its .eh_frame section, the address of the exception
   object and the type of the exception.  `steps` bounds each expression and action chain.
   */
  datatype Process = Process(m: Mem, section: Section, exception: u64, thrownType: u64, steps: nat)

  function QueryOf(proc: Process, fde: Fde, regs: RegisterFile): Query {
    var ip: int := regs[RIP];
    Query(fde.pcBegin, Wrap(ip - 1), proc.thrownType)
  }

  /** private_personality: a frame without a personality routine lets the unwind continue. */
  function ConsultPersonality(proc: Process, fde: Fde, regs: RegisterFile, actions: Actions): Outcome<Verdict> {
    if fde.cie.personality == 0 then Ok(ContinueUnwind)
    else
      var routine :- Read64(proc.m, fde.cie.personality);
      if routine == 0 then Ok(ContinueUnwind)
      else Scan(proc.m, fde.lsda, QueryOf(proc, fde, regs), actions, proc.steps)
  }

  /** What the phases use of a process: find_fde, private_personality and dwarf4::unwind. */
  datatype Walker = Walker(
    exception: u64,
    frame: RegisterFile -> Outcome<Fde>,
    consult: (Fde, RegisterFile, Actions) -> Outcome<Verdict>,
    caller: (Fde, RegisterFile) -> Outcome<RegisterFile>)

  function WalkerOf(proc: Process): Walker {
    Walker(
      proc.exception,
      (regs: RegisterFile) => FindFde(proc.m, proc.section, regs[RIP]),
      (fde: Fde, regs: RegisterFile, actions: Actions) => ConsultPersonality(proc, fde, regs, actions),
      (fde: Fde, regs: RegisterFile) => Unwind.UnwindRegisters(proc.m, fde, regs, proc.steps))
  }

  /** One call of the personality routine for a frame. */
  datatype Call = Call(fde: Fde, regs: RegisterFile, actions: Actions, verdict: Verdict)

  /** Registers 0 and 1 carry the exception and the type index into the landing pad. */
  function Landing(regs: RegisterFile, exception: u64, typeIndex: u64, landingPad: u64): RegisterFile {
    regs[0 := exception][1 := typeIndex][RIP := landingPad]
  }

  /** One turn of a phase's loop: the phase ends with a result, or goes on to the calling frame. */
  datatype Turn<+R> = Stop(calls: seq<Call>, result: Option<R>) | Climb(call: Call, next: RegisterFile)

  /** What a phase came to: the calls it made and, unless it met the end of the stack, its result. */
  datatype Walked<+R> = Walked(calls: seq<Call>, result: Option<R>)

  /** One turn of the search: it stops at a handler with the value for private_1. */
  function SearchTurn(w: Walker, regs: RegisterFile): Outcome<Turn<u64>> {
    var fde :- w.frame(regs);
    if !fde.Exists() then Ok(Stop([], None))
    else
      var verdict :- w.consult(fde, regs, SEARCH);
      var call := Call(fde, regs, SEARCH, verdict);
      match verdict
      case HandlerFound => Ok(Stop([call], Some(fde.pcBegin)))
      case Install(_, _) => Abort
      case ContinueUnwind => var next :- w.caller(fde, regs); Ok(Climb(call, next))
  }

  /** One turn of the cleanup phase: it stops with the registers it resumes with. */
  function CleanupTurn(w: Walker, handler: u64, regs: RegisterFile): Outcome<Turn<RegisterFile>> {
    var fde :- w.frame(regs);
    if !fde.Exists() then Ok(Stop([], None))
    else
      var actions := Cleanup(handler == fde.pcBegin);
      var verdict :- w.consult(fde, regs, actions);
      var call := Call(fde, regs, actions, verdict);
      match verdict
      case Install(typeIndex, landingPad) => Ok(Stop([call], Some(Landing(regs, w.exception, typeIndex, landingPad))))
      case HandlerFound => Abort
      case ContinueUnwind => var next :- w.caller(fde, regs); Ok(Climb(call, next))
  }

  /** A loop of turns over at most `frames` frames. */
  function Walk<R>(turn: RegisterFile -> Outcome<Turn<R>>, regs: RegisterFile, frames: nat): Outcome<Walked<R>>
    decreases frames
  {
    if frames == 0 then Timeout
    else
      var taken :- turn(regs);
      match taken
      case Stop(calls, result) => Ok(Walked(calls, result))
      case Climb(call, next) =>
        var rest :- Walk(turn, next, frames - 1);
        Ok(Walked([call] + rest.calls, rest.result))
  }

  function SearchTurns(w: Walker): RegisterFile -> Outcome<Turn<u64>> {
    (at: RegisterFile) => SearchTurn(w, at)
  }

  function CleanupTurns(w: Walker, handler: u64): RegisterFile -> Outcome<Turn<RegisterFile>> {
    (at: RegisterFile) => CleanupTurn(w, handler, at)
  }

  /** The loop of private_phase1. */
  function SearchFrom(w: Walker, regs: RegisterFile, frames: nat): Outcome<Walked<u64>> {
    Walk<u64>(SearchTurns(w), regs, frames)
  }

  /** The loop of private_phase2. */
  function CleanupFrom(w: Walker, handler: u64, regs: RegisterFile, frames: nat): Outcome<Walked<RegisterFile>> {
    Walk(CleanupTurns(w, handler), regs, frames)
  }

  /** Both phases first leave the frame of _Unwind_RaiseException itself; None: it has no FDE. */
  function FirstFrame(w: Walker, regs: RegisterFile): Outcome<Option<RegisterFile>> {
    var fde :- w.frame(regs);
    if !fde.Exists() then Ok(None)
    else
      var next :- w.caller(fde, regs);
      Ok(Some(next))
  }

  function Phase1(w: Walker, regs: RegisterFile, frames: nat): Outcome<Walked<u64>> {
    var first :- FirstFrame(w, regs);
    match first
    case None => Ok(Walked([], None))
    case Some(next) => SearchFrom(w, next, frames)
  }

  function Phase2(w: Walker, handler: u64, regs: RegisterFile, frames: nat): Outcome<Walked<RegisterFile>> {
    var first :- FirstFrame(w, regs);
    match first
    case None => Ok(Walked([], None))
    case Some(next) => CleanupFrom(w, handler, next, frames)
  }

  /** What becomes of a throw: a return with a reason code, or a jump to a landing pad. */
  datatype Raised = Returned(reason: Reason) | Resumed(regs: RegisterFile)

  datatype Reason = NoReason | FatalPhase2Error | EndOfStack

  /** _Unwind_RaiseException on the registers it has stored. */
  function RaiseException(w: Walker, regs: RegisterFile, frames: nat): Outcome<Raised> {
    var found :- Phase1(w, regs, frames);
    match found.result
    case None => Ok(Returned(EndOfStack))
    case Some(handler) =>
      var cleaned :- Phase2(w, handler, regs, frames);
      match cleaned.result
      case None => Ok(Returned(EndOfStack))
      case Some(file) => Ok(Resumed(file))
  }

  /////////////////////////////////////////////////////////////////////////////
  // Agreement of the phases
  /////////////////////////////////////////////////////////////////////////////

  /** Each call is for the caller of the frame of the call before. */
  ghost predicate Climbs(w: Walker, calls: seq<Call>) {
    && (forall i | 0 <= i < |calls| ::
          w.frame(calls[i].regs) == Ok(calls[i].fde) && calls[i].fde.Exists())
    && (forall i | 0 <= i < |calls| - 1 :: w.caller(calls[i].fde, calls[i].regs) == Ok(calls[i + 1].regs))
  }

  /** Every call but the last let the unwind continue. */
  predicate OnlyLastDecides(calls: seq<Call>) {
    forall i | 0 <= i < |calls| - 1 :: calls[i].verdict == ContinueUnwind
  }

  /** A search that found a handler found it at its last frame, and it climbed to that frame. */
  lemma {:induction false} SearchStopsAtHandler(w: Walker, regs: RegisterFile, frames: nat)
    requires SearchFrom(w, regs, frames).Ok? && SearchFrom(w, regs, frames).value.result.Some?
    ensures var found := SearchFrom(w, regs, frames).value;
            && 1 <= |found.calls| <= frames && Climbs(w, found.calls) && OnlyLastDecides(found.calls)
            && found.calls[0].regs == regs
            && var last := found.calls[|found.calls| - 1];
               last.verdict == HandlerFound && found.result == Some(last.fde.pcBegin)
    decreases frames
  {
    var fde := w.frame(regs).value;
    if w.consult(fde, regs, SEARCH).value == ContinueUnwind {
      SearchStopsAtHandler(w, w.caller(fde, regs).value, frames - 1);
    }
  }

  /** What the agreement asks of a personality routine. */
  ghost predicate AgreesAt(w: Walker, fde: Fde, regs: RegisterFile, handlerFrame: bool) {
    var searched, cleaned := w.consult(fde, regs, SEARCH), w.consult(fde, regs, Cleanup(handlerFrame));
    searched.Ok? ==>
      && searched.value in {ContinueUnwind, HandlerFound}
      && cleaned.Ok? && cleaned.value != HandlerFound
      && (searched.value == HandlerFound ==> cleaned.value.Install?)
      && (searched.value == ContinueUnwind && cleaned.value.Install? ==> cleaned.value.typeIndex == 0)
  }

  ghost predicate Agrees(w: Walker) {
    forall fde, regs, handlerFrame :: AgreesAt(w, fde, regs, handlerFrame)
  }

  lemma {:induction false} PersonalityAgrees(proc: Process)
    ensures Agrees(WalkerOf(proc))
  {
    forall fde: Fde, regs, handlerFrame
      ensures AgreesAt(WalkerOf(proc), fde, regs, handlerFrame)
    {
      CallsAgree(proc.m, fde.lsda, QueryOf(proc, fde, regs), handlerFrame, proc.steps);
    }
  }

  /** The frames of the cleanup phase are those of the search, in order, up to where it installs. */
  predicate Retraces(found: seq<Call>, cleaned: seq<Call>, handler: u64) {
    && 1 <= |cleaned| <= |found|
    && (forall i | 0 <= i < |cleaned| ::
          && cleaned[i].fde == found[i].fde && cleaned[i].regs == found[i].regs
          && cleaned[i].actions == Cleanup(handler == found[i].fde.pcBegin))
  }

  /** The registers that the last call of the cleanup phase makes it resume with. */
  predicate ResumesAt(w: Walker, call: Call, resumed: Option<RegisterFile>) {
    && call.verdict.Install?
    && resumed == Some(Landing(call.regs, w.exception, call.verdict.typeIndex, call.verdict.landingPad))
  }

  /** The cleanup call on the frame of a search call. */
  predicate Again(handler: u64, first: Call, again: Call) {
    again.fde == first.fde && again.regs == first.regs && again.actions == Cleanup(handler == first.fde.pcBegin)
  }

  /** What one turn of the cleanup phase does where a turn of the search goes on or finds a handler. */
  predicate TurnsAgree(w: Walker, handler: u64, searched: Turn<u64>, cleaned: Turn<RegisterFile>) {
    match searched
    case Stop(calls, result) =>
      result.Some? ==>
        && |calls| == 1 && cleaned.Stop? && |cleaned.calls| == 1
        && Again(handler, calls[0], cleaned.calls[0]) && ResumesAt(w, cleaned.calls[0], cleaned.result)
    case Climb(call, next) =>
      match cleaned
      case Climb(again, next') => Again(handler, call, again) && next' == next && again.verdict == ContinueUnwind
      case Stop(calls, result) =>
        |calls| == 1 && Again(handler, call, calls[0])
        && ResumesAt(w, calls[0], result) && calls[0].verdict.typeIndex == 0
  }

  ghost predicate AllTurnsAgree(w: Walker, handler: u64, search: RegisterFile -> Outcome<Turn<u64>>,
                                clean: RegisterFile -> Outcome<Turn<RegisterFile>>) {
    forall at: RegisterFile :: search(at).Ok? ==>
      clean(at).Ok? && TurnsAgree(w, handler, search(at).value, clean(at).value)
  }

  lemma {:induction false} PhaseTurnsAgree(w: Walker, handler: u64)
    requires Agrees(w)
    ensures AllTurnsAgree(w, handler, SearchTurns(w), CleanupTurns(w, handler))
  {
    forall at: RegisterFile | SearchTurns(w)(at).Ok?
      ensures CleanupTurns(w, handler)(at).Ok?
      ensures TurnsAgree(w, handler, SearchTurns(w)(at).value, CleanupTurns(w, handler)(at).value)
    {
      var fde := w.frame(at).value;
      assert AgreesAt(w, fde, at, handler == fde.pcBegin);
    }
  }

  /** A cleanup walk that retraces a search and resumes, at the search's last frame at the latest. */
  predicate Follows(w: Walker, handler: u64, found: Walked<u64>, cleaned: Walked<RegisterFile>) {
    && Retraces(found.calls, cleaned.calls, handler) && OnlyLastDecides(cleaned.calls)
    && var last := cleaned.calls[|cleaned.calls| - 1];
       && ResumesAt(w, last, cleaned.result)
       && (|cleaned.calls| < |found.calls| ==> last.verdict.typeIndex == 0)
  }

  lemma {:induction false} FollowsFurther(w: Walker, handler: u64, found: Walked<u64>,
                                          cleaned: Walked<RegisterFile>, first: Call, again: Call)
    requires Follows(w, handler, found, cleaned) && Again(handler, first, again) && again.verdict == ContinueUnwind
    ensures Follows(w, handler, found.(calls := [first] + found.calls), cleaned.(calls := [again] + cleaned.calls))
  {
  }

  /**
   From wherever a search finds a handler, the cleanup phase comes to install: at the handler's
   frame at the latest, and in an earlier frame only for a cleanup.
   */
  lemma {:induction false} CleanupRetraces(w: Walker, handler: u64, search: RegisterFile -> Outcome<Turn<u64>>,
                                           clean: RegisterFile -> Outcome<Turn<RegisterFile>>,
                                           regs: RegisterFile, frames: nat)
    requires AllTurnsAgree(w, handler, search, clean)
    requires Walk<u64>(search, regs, frames).Ok? && Walk<u64>(search, regs, frames).value.result.Some?
    ensures Walk(clean, regs, frames).Ok?
    ensures Follows(w, handler, Walk<u64>(search, regs, frames).value, Walk(clean, regs, frames).value)
    decreases frames
  {
    var searched, cleaned := search(regs).value, clean(regs).value;
    if searched.Climb? {
      CleanupRetraces(w, handler, search, clean, searched.next, frames - 1);
      if cleaned.Climb? {
        FollowsFurther(w, handler, Walk<u64>(search, searched.next, frames - 1).value,
                       Walk(clean, searched.next, frames - 1).value, searched.call, cleaned.call);
      } else {
        var rest := Walk<u64>(search, searched.next, frames - 1).value;
        assert |rest.calls| >= 1;
      }
    }
  }

  /** What the agreement of the phases comes to. */
  ghost predicate Agreement(w: Walker, found: Walked<u64>, cleaned: Walked<RegisterFile>) {
    && 1 <= |found.calls| && Climbs(w, found.calls) && OnlyLastDecides(found.calls)
    && var handlerCall := found.calls[|found.calls| - 1];
       && handlerCall.verdict == HandlerFound && found.result == Some(handlerCall.fde.pcBegin)
       && Follows(w, handlerCall.fde.pcBegin, found, cleaned)
       && (|cleaned.calls| == |found.calls| ==> cleaned.calls[|cleaned.calls| - 1].actions.handlerFrame)
  }

  /**
   If the search phase finds a handler, the cleanup phase, started again from the same registers,
   goes through the identical frames.  It passes HANDLER_FRAME exactly for frames of the
   function that has the handler, among them the handler's own, and it resumes at a landing pad
   of the handler's frame or of an earlier one: it neither unwinds past the handler nor comes
   to the end of the stack.  In an earlier frame it installs only a cleanup.
   */
  lemma {:induction false} PhasesAgree(proc: Process, regs: RegisterFile, frames: nat)
    ensures var w := WalkerOf(proc);
            var found := Phase1(w, regs, frames);
            found.Ok? && found.value.result.Some? ==>
              var second := Phase2(w, found.value.result.value, regs, frames);
              second.Ok? && Agreement(w, found.value, second.value)
  {
    var found := Phase1(WalkerOf(proc), regs, frames);
    if found.Ok? && found.value.result.Some? {
      PersonalityAgrees(proc);
      WalkersAgree(WalkerOf(proc), regs, frames);
    }
  }

  /** The cleanup phase passes HANDLER_FRAME to the frame that has the handler, and to no other. */
  predicate MarksHandlerOnly(found: Walked<u64>, cleaned: Walked<RegisterFile>) {
    forall i | 0 <= i < |cleaned.calls| :: cleaned.calls[i].actions == Cleanup(i == |found.calls| - 1)
  }

  /** Among the n first frames, those below the handler's are not of the handler's function. */
  predicate NoInnerActivation(found: Walked<u64>, n: nat)
    requires n <= |found.calls| && found.calls != []
  {
    forall i | 0 <= i < n && i < |found.calls| - 1 ::
      found.calls[i].fde.pcBegin != found.calls[|found.calls| - 1].fde.pcBegin
  }

  /** HANDLER_FRAME goes to the handler's frame alone if and only if there is no such activation. */
  predicate Marks(found: Walked<u64>, cleaned: Walked<RegisterFile>) {
    && |cleaned.calls| <= |found.calls| != 0
    && (MarksHandlerOnly(found, cleaned) <==> NoInnerActivation(found, |cleaned.calls|))
  }

  /**
   A frame counts as the handler's by the start of its function: HANDLER_FRAME goes to the handler's
   frame alone if and only if no frame that the cleanup phase passes before it is another activation
   of the same function.
   */
  lemma {:induction false} MarksExactly(proc: Process, regs: RegisterFile, frames: nat)
    ensures var w := WalkerOf(proc);
            var found := Phase1(w, regs, frames);
            found.Ok? && found.value.result.Some? ==>
              var second := Phase2(w, found.value.result.value, regs, frames);
              second.Ok? && Marks(found.value, second.value)
  {
    var found := Phase1(WalkerOf(proc), regs, frames);
    if found.Ok? && found.value.result.Some? {
      PersonalityAgrees(proc);
      WalkersMark(WalkerOf(proc), regs, frames);
    }
  }

  lemma {:induction false} WalkersMark(w: Walker, regs: RegisterFile, frames: nat)
    requires Agrees(w)
    requires Phase1(w, regs, frames).Ok? && Phase1(w, regs, frames).value.result.Some?
    ensures var found := Phase1(w, regs, frames).value;
            var second := Phase2(w, found.result.value, regs, frames);
            second.Ok? && Marks(found, second.value)
  {
    WalkersAgree(w, regs, frames);
    var found := Phase1(w, regs, frames).value;
    AgreementMarks(w, found, Phase2(w, found.result.value, regs, frames).value);
  }

  lemma {:induction false} AgreementMarks(w: Walker, found: Walked<u64>, cleaned: Walked<RegisterFile>)
    requires Agreement(w, found, cleaned)
    ensures Marks(found, cleaned)
  {
    MarksWhere(found, cleaned, found.result.value);
  }

  lemma {:induction false} MarksWhere(found: Walked<u64>, cleaned: Walked<RegisterFile>, handler: u64)
    requires found.calls != [] && found.calls[|found.calls| - 1].fde.pcBegin == handler
    requires Retraces(found.calls, cleaned.calls, handler)
    ensures MarksHandlerOnly(found, cleaned) <==> NoInnerActivation(found, |cleaned.calls|)
  {
    if MarksHandlerOnly(found, cleaned) {
      forall i | 0 <= i < |cleaned.calls| && i < |found.calls| - 1
        ensures found.calls[i].fde.pcBegin != handler
      {
        assert cleaned.calls[i].actions == Cleanup(handler == found.calls[i].fde.pcBegin);
      }
    }
  }

  /** A function that has called itself, with the handler around the call in its outer activation. */
  function Recursing(fde: Fde): Walker {
    Walker(
      0,
      (regs: RegisterFile) => Ok(fde),
      (fde: Fde, regs: RegisterFile, actions: Actions) =>
        Ok(if regs[RIP] != 2 then ContinueUnwind else if actions == SEARCH then HandlerFound else Install(1, 7)),
      (fde: Fde, regs: RegisterFile) => Ok(regs[RIP := if regs[RIP] == 0 then 1 else 2]))
  }

  /** It gets HANDLER_FRAME in its inner activation too, which has no handler. */
  lemma {:induction false} RecursionMarked(fde: Fde, regs: RegisterFile)
    requires fde.Exists() && regs[RIP] == 0
    ensures var w := Recursing(fde);
            var found := Phase1(w, regs, 2);
            && found.Ok? && found.value.result == Some(fde.pcBegin) && |found.value.calls| == 2
            && found.value.calls[0].verdict == ContinueUnwind
            && var second := Phase2(w, fde.pcBegin, regs, 2);
               && second.Ok? && |second.value.calls| == 2 && second.value.calls[0].actions == Cleanup(true)
               && !MarksHandlerOnly(found.value, second.value)
  {
    var w := Recursing(fde);
    var inner := regs[RIP := 1];
    var outer := regs[RIP := 2];
    assert w.caller(fde, regs) == Ok(inner) && inner[RIP := 2] == outer && w.caller(fde, inner) == Ok(outer);
    var last, again := Call(fde, outer, SEARCH, HandlerFound), Call(fde, outer, Cleanup(true), Install(1, 7));
    assert SearchFrom(w, outer, 1) == Ok(Walked([last], Some(fde.pcBegin)));
    assert SearchFrom(w, inner, 2) ==
           Ok(Walked([Call(fde, inner, SEARCH, ContinueUnwind)] + [last], Some(fde.pcBegin)));
    var resumed := Some(Landing(outer, 0, 1, 7));
    assert CleanupFrom(w, fde.pcBegin, outer, 1) == Ok(Walked([again], resumed));
    assert CleanupFrom(w, fde.pcBegin, inner, 2) ==
           Ok(Walked([Call(fde, inner, Cleanup(true), ContinueUnwind)] + [again], resumed));
  }

  lemma {:induction false} WalkersAgree(w: Walker, regs: RegisterFile, frames: nat)
    requires Agrees(w)
    requires Phase1(w, regs, frames).Ok? && Phase1(w, regs, frames).value.result.Some?
    ensures var found := Phase1(w, regs, frames).value;
            var second := Phase2(w, found.result.value, regs, frames);
            second.Ok? && Agreement(w, found, second.value)
  {
    var next := FirstFrame(w, regs).value.value;
    var handler := Phase1(w, regs, frames).value.result.value;
    SearchStopsAtHandler(w, next, frames);
    PhaseTurnsAgree(w, handler);
    CleanupRetraces(w, handler, SearchTurns(w), CleanupTurns(w, handler), next, frames);
  }

  /** The search from any of its own frames on ends where it did. */
  lemma {:induction false} SearchFromFrame(w: Walker, regs: RegisterFile, frames: nat, i: nat)
    requires SearchFrom(w, regs, frames).Ok? && i < |SearchFrom(w, regs, frames).value.calls|
    ensures i < frames
    ensures var found := SearchFrom(w, regs, frames).value;
            SearchFrom(w, found.calls[i].regs, frames - i) == Ok(Walked(found.calls[i..], found.result))
    decreases i
  {
    var taken := SearchTurns(w)(regs).value;
    assert taken == SearchTurn(w, regs).value;
    var calls := SearchFrom(w, regs, frames).value.calls;
    if i == 0 {
      assert calls[i].regs == regs && calls[i..] == calls;
    } else {
      SearchFromFrame(w, taken.next, frames - 1, i - 1);
      var rest := SearchFrom(w, taken.next, frames - 1).value.calls;
      assert calls == [taken.call] + rest && calls[i..] == rest[i - 1..];
    }
  }

  /////////////////////////////////////////////////////////////////////////////
  // Resuming after a cleanup
  /////////////////////////////////////////////////////////////////////////////

  /** The files agree on the registers in `kept`. */
  predicate SameOn(kept: set<nat>, a: RegisterFile, b: RegisterFile) {
    forall r: nat | r in kept && r < NUM_REGISTERS :: a[r] == b[r]
  }

  /** Where the first goes well, so does the second, and they agree on `kept`. */
  predicate SameOutcome(kept: set<nat>, a: Outcome<RegisterFile>, b: Outcome<RegisterFile>) {
    a.Ok? ==> b.Ok? && SameOn(kept, a.value, b.value)
  }

  /** The frames that exist restore the registers in `kept` from one another and from memory alone. */
  ghost predicate Restores(w: Walker, kept: set<nat>) {
    forall a, b | SameOn(kept, a, b) && w.frame(a).Ok? && w.frame(a).value.Exists() ::
      SameOutcome(kept, w.caller(w.frame(a).value, a), w.caller(w.frame(a).value, b))
  }

  /** find_fde and the personality routine use no register outside `kept`. */
  ghost predicate Decides(w: Walker, kept: set<nat>) {
    && (forall a, b | SameOn(kept, a, b) :: w.frame(a) == w.frame(b))
    && (forall fde, a, b, actions | SameOn(kept, a, b) :: w.consult(fde, a, actions) == w.consult(fde, b, actions))
  }

  /** They use the instruction pointer only. */
  lemma {:induction false} PointerDecides(proc: Process, kept: set<nat>)
    requires RIP in kept
    ensures Decides(WalkerOf(proc), kept)
  {
    var w := WalkerOf(proc);
    forall a, b | SameOn(kept, a, b)
      ensures w.frame(a) == w.frame(b)
    {
      assert a[RIP] == b[RIP];
    }
    forall fde, a, b, actions | SameOn(kept, a, b)
      ensures w.consult(fde, a, actions) == w.consult(fde, b, actions)
    {
      assert a[RIP] == b[RIP];
    }
  }

  /** Any frames restore all registers together. */
  lemma {:induction false} AllRegistersRestored(w: Walker, kept: set<nat>)
    requires forall r: nat | r < NUM_REGISTERS :: r in kept
    ensures Restores(w, kept)
  {
    forall a, b | SameOn(kept, a, b) && w.frame(a).Ok? && w.frame(a).value.Exists()
      ensures SameOutcome(kept, w.caller(w.frame(a).value, a), w.caller(w.frame(a).value, b))
    {
      assert a == b;
    }
  }

  predicate SameCall(kept: set<nat>, a: Call, b: Call) {
    a.fde == b.fde && a.actions == b.actions && a.verdict == b.verdict && SameOn(kept, a.regs, b.regs)
  }

  predicate SameCalls(kept: set<nat>, a: seq<Call>, b: seq<Call>) {
    |a| == |b| && forall k | 0 <= k < |a| :: SameCall(kept, a[k], b[k])
  }

  /** Two walks through the same frames; the second resumes where its last call makes it. */
  predicate SameWalk(w: Walker, kept: set<nat>, a: Walked<RegisterFile>, b: Walked<RegisterFile>) {
    && SameCalls(kept, a.calls, b.calls) && (a.result.Some? <==> b.result.Some?)
    && (b.result.Some? ==> b.calls != [] && ResumesAt(w, b.calls[|b.calls| - 1], b.result))
  }

  predicate SameTurn(w: Walker, kept: set<nat>, a: Turn<RegisterFile>, b: Turn<RegisterFile>) {
    match a
    case Climb(call, next) => b.Climb? && SameCall(kept, call, b.call) && SameOn(kept, next, b.next)
    case Stop(calls, result) => b.Stop? && SameWalk(w, kept, Walked(calls, result), Walked(b.calls, b.result))
  }

  lemma {:induction false} TurnsSame(w: Walker, kept: set<nat>, handler: u64, a: RegisterFile, b: RegisterFile)
    requires Restores(w, kept) && Decides(w, kept) && SameOn(kept, a, b) && CleanupTurn(w, handler, a).Ok?
    ensures CleanupTurn(w, handler, b).Ok?
    ensures SameTurn(w, kept, CleanupTurn(w, handler, a).value, CleanupTurn(w, handler, b).value)
  {
    assert w.frame(a) == w.frame(b);
    var fde := w.frame(a).value;
    if fde.Exists() {
      var actions := Cleanup(handler == fde.pcBegin);
      assert w.consult(fde, a, actions) == w.consult(fde, b, actions);
      assert SameOutcome(kept, w.caller(fde, a), w.caller(fde, b));
    }
  }

  lemma {:induction false} SameFurther(w: Walker, kept: set<nat>, c: Call, d: Call, x: Walked<RegisterFile>,
                                       y: Walked<RegisterFile>)
    requires SameCall(kept, c, d) && SameWalk(w, kept, x, y)
    ensures SameWalk(w, kept, Walked([c] + x.calls, x.result), Walked([d] + y.calls, y.result))
  {
  }

  /** Cleanup walks from files that agree on `kept` go through the same frames. */
  lemma {:induction false} WalksSame(w: Walker, kept: set<nat>, handler: u64, a: RegisterFile, b: RegisterFile,
                                     frames: nat)
    requires Restores(w, kept) && Decides(w, kept) && SameOn(kept, a, b) && CleanupFrom(w, handler, a, frames).Ok?
    ensures CleanupFrom(w, handler, b, frames).Ok?
    ensures SameWalk(w, kept, CleanupFrom(w, handler, a, frames).value, CleanupFrom(w, handler, b, frames).value)
    decreases frames
  {
    var x := CleanupTurns(w, handler)(a).value;
    assert x == CleanupTurn(w, handler, a).value;
    TurnsSame(w, kept, handler, a, b);
    var y := CleanupTurns(w, handler)(b).value;
    if x.Climb? {
      WalksSame(w, kept, handler, x.next, y.next, frames - 1);
      SameFurther(w, kept, x.call, y.call, CleanupFrom(w, handler, x.next, frames - 1).value,
                  CleanupFrom(w, handler, y.next, frames - 1).value);
    }
  }

  /** In n turns the cleanup phase lets the unwind continue from `from` to `to`. */
  ghost predicate Reaches(w: Walker, handler: u64, from: RegisterFile, n: nat, to: RegisterFile)
    decreases n
  {
    if n == 0 then to == from
    else
      var turn := CleanupTurn(w, handler, from);
      turn.Ok? && turn.value.Climb? && Reaches(w, handler, turn.value.next, n - 1, to)
  }

  /** A walk goes through the frames of a climb, and then as from where that ends. */
  lemma {:induction false} ClimbAndWalk(w: Walker, handler: u64, from: RegisterFile, n: nat, to: RegisterFile,
                                        frames: nat)
    requires Reaches(w, handler, from, n, to) && CleanupFrom(w, handler, to, frames).Ok?
    ensures CleanupFrom(w, handler, from, n + frames).Ok?
    ensures var all, rest := CleanupFrom(w, handler, from, n + frames).value, CleanupFrom(w, handler, to, frames).value;
            && |all.calls| == n + |rest.calls| && all.calls[n..] == rest.calls && all.result == rest.result
            && forall k | 0 <= k < n :: all.calls[k].verdict == ContinueUnwind
    decreases n
  {
    if n > 0 {
      var turn := CleanupTurns(w, handler)(from).value;
      assert turn == CleanupTurn(w, handler, from).value;
      ClimbAndWalk(w, handler, turn.next, n - 1, to, frames);
      var rest := CleanupFrom(w, handler, turn.next, n - 1 + frames).value;
      var all := CleanupFrom(w, handler, from, n + frames).value;
      assert all.calls == [turn.call] + rest.calls && all.calls[n..] == rest.calls[n - 1..];
    }
  }

  /**
   What a resumed walk comes to: the first n calls let it continue, and the others are those of a
   cleanup phase that agrees with the search from its frame i on.
   */
  ghost predicate ResumedAgreement(w: Walker, kept: set<nat>, found: Walked<u64>, i: nat, n: nat,
                                   second: Walked<RegisterFile>)
    requires i < |found.calls|
  {
    && n < |second.calls| && (forall k | 0 <= k < n :: second.calls[k].verdict == ContinueUnwind)
    && exists cleaned ::
         Agreement(w, Walked(found.calls[i..], found.result), cleaned)
         && SameWalk(w, kept, cleaned, Walked(second.calls[n..], second.result))
  }

  /**
   _Unwind_Resume, called at the end of a cleanup, only runs the cleanup phase, from the frame
   whose cleanup has run.  If that frame and those up to frame i of the search let the unwind
   continue, and the registers that the frames restore (`kept`: the instruction pointer, and as
   many as belong to it) are then those that the search saw, the walk installs again, no further
   than the handler.
   */
  lemma {:induction false} ResumeReachesHandler(proc: Process, start: RegisterFile, frames: nat, i: nat, kept: set<nat>,
                                                regs: RegisterFile, first: RegisterFile, n: nat, to: RegisterFile)
    requires RIP in kept && Restores(WalkerOf(proc), kept)
    ensures var w := WalkerOf(proc);
            var found := SearchFrom(w, start, frames);
            found.Ok? && found.value.result.Some? && i < |found.value.calls|
            && FirstFrame(w, regs) == Ok(Some(first)) && Reaches(w, found.value.result.value, first, n, to)
            && SameOn(kept, found.value.calls[i].regs, to) ==>
              var second := Phase2(w, found.value.result.value, regs, n + frames);
              second.Ok? && ResumedAgreement(w, kept, found.value, i, n, second.value)
  {
    var w := WalkerOf(proc);
    var found := SearchFrom(w, start, frames);
    if found.Ok? && found.value.result.Some? && i < |found.value.calls|
       && FirstFrame(w, regs) == Ok(Some(first)) && Reaches(w, found.value.result.value, first, n, to)
       && SameOn(kept, found.value.calls[i].regs, to) {
      PersonalityAgrees(proc);
      PointerDecides(proc, kept);
      PhaseResumes(w, start, frames, i, kept, regs, first, n, to);
    }
  }

  lemma {:induction false} PhaseResumes(w: Walker, start: RegisterFile, frames: nat, i: nat, kept: set<nat>,
                                        regs: RegisterFile, first: RegisterFile, n: nat, to: RegisterFile)
    requires Agrees(w) && Restores(w, kept) && Decides(w, kept)
    requires SearchFrom(w, start, frames).Ok? && SearchFrom(w, start, frames).value.result.Some?
    requires var found := SearchFrom(w, start, frames).value;
             && i < |found.calls| && Reaches(w, found.result.value, first, n, to)
             && SameOn(kept, found.calls[i].regs, to)
    requires FirstFrame(w, regs) == Ok(Some(first))
    ensures var found := SearchFrom(w, start, frames).value;
            var second := Phase2(w, found.result.value, regs, n + frames);
            second.Ok? && ResumedAgreement(w, kept, found, i, n, second.value)
  {
    WalkersResume(w, start, frames, i, kept, first, n, to);
  }

  /** The cleanup phase from frame i of the search agrees with the search from there. */
  lemma {:induction false} CleanupFromFrame(w: Walker, start: RegisterFile, frames: nat, i: nat)
    requires Agrees(w) && SearchFrom(w, start, frames).Ok? && SearchFrom(w, start, frames).value.result.Some?
    requires i < |SearchFrom(w, start, frames).value.calls|
    ensures var found := SearchFrom(w, start, frames).value;
            var cleaned := CleanupFrom(w, found.result.value, found.calls[i].regs, frames);
            cleaned.Ok? && Agreement(w, Walked(found.calls[i..], found.result), cleaned.value)
  {
    var found := SearchFrom(w, start, frames).value;
    SearchFromFrame(w, start, frames, i);
    var from: RegisterFile := found.calls[i].regs;
    WalkFuel<u64>(SearchTurns(w), SearchTurns(w), from, frames - i, frames);
    SearchStopsAtHandler(w, from, frames);
    PhaseTurnsAgree(w, found.result.value);
    CleanupRetraces(w, found.result.value, SearchTurns(w), CleanupTurns(w, found.result.value), from, frames);
  }

  lemma {:induction false} WalkersResume(w: Walker, start: RegisterFile, frames: nat, i: nat, kept: set<nat>,
                                         first: RegisterFile, n: nat, to: RegisterFile)
    requires Agrees(w) && Restores(w, kept) && Decides(w, kept)
    requires SearchFrom(w, start, frames).Ok? && SearchFrom(w, start, frames).value.result.Some?
    requires var found := SearchFrom(w, start, frames).value;
             && i < |found.calls| && Reaches(w, found.result.value, first, n, to)
             && SameOn(kept, found.calls[i].regs, to)
    ensures var found := SearchFrom(w, start, frames).value;
            var second := CleanupFrom(w, found.result.value, first, n + frames);
            second.Ok? && ResumedAgreement(w, kept, found, i, n, second.value)
  {
    var found := SearchFrom(w, start, frames).value;
    var handler := found.result.value;
    CleanupFromFrame(w, start, frames, i);
    var cleaned := CleanupFrom(w, handler, found.calls[i].regs, frames).value;
    WalksSame(w, kept, handler, found.calls[i].regs, to, frames);
    ClimbAndWalk(w, handler, first, n, to, frames);
    var second := CleanupFrom(w, handler, first, n + frames).value;
    assert SameWalk(w, kept, cleaned, Walked(second.calls[n..], second.result));
  }

  /**
   The registers of a landing pad: it runs in the frame of the call that installs it, with the
   exception in register 0, the type index in register 1 and all others as the frame has them.
   */
  predicate LandsIn(file: RegisterFile, call: Call, exception: u64) {
    && call.verdict.Install?
    && file[0] == exception && file[1] == call.verdict.typeIndex && file[RIP] == call.verdict.landingPad
    && forall r: nat | 1 < r < NUM_REGISTERS && r != RIP :: file[r] == call.regs[r]
  }

  lemma {:induction false} ResumedLands(w: Walker, call: Call, resumed: Option<RegisterFile>)
    requires ResumesAt(w, call, resumed)
    ensures resumed.Some? && LandsIn(resumed.value, call, w.exception)
  {
  }

  /** What a throw that is not cut short comes to. */
  predicate Ends(proc: Process, regs: RegisterFile, frames: nat, raised: Raised) {
    var w := WalkerOf(proc);
    var found := Phase1(w, regs, frames);
    && found.Ok?
    && match found.value.result
       case None => raised == Returned(EndOfStack)
       case Some(handler) =>
         var second := Phase2(w, handler, regs, frames);
         && second.Ok? && second.value.calls != [] && raised.Resumed?
         && LandsIn(raised.regs, second.value.calls[|second.value.calls| - 1], proc.exception)
  }

  /**
   A throw returns END_OF_STACK exactly if the search came to the end of the stack; otherwise it
   ends in the landing pad of the last call of the cleanup phase, in the frame of that call.  It
   never returns a phase 2 error.
   */
  lemma {:induction false} RaiseResumesIfFound(proc: Process, regs: RegisterFile, frames: nat)
    ensures var found, raised := Phase1(WalkerOf(proc), regs, frames), RaiseException(WalkerOf(proc), regs, frames);
            && (raised.Ok? <==> found.Ok?)
            && (raised.Ok? ==> Ends(proc, regs, frames, raised.value))
  {
    var w := WalkerOf(proc);
    var found := Phase1(w, regs, frames);
    if found.Ok? && found.value.result.Some? {
      PhasesAgree(proc, regs, frames);
      var second := Phase2(w, found.value.result.value, regs, frames).value;
      ResumedLands(w, second.calls[|second.calls| - 1], second.result);
    }
  }

  /////////////////////////////////////////////////////////////////////////////
  // The budgets
  /////////////////////////////////////////////////////////////////////////////

  /** The same process with a smaller and a larger step budget. */
  ghost predicate Refines(small: Walker, large: Walker) {
    && small.exception == large.exception
    && (forall regs :: large.frame(regs) == small.frame(regs))
    && (forall fde, regs, actions :: Settles(small.consult(fde, regs, actions), large.consult(fde, regs, actions)))
    && (forall fde, regs :: Settles(small.caller(fde, regs), large.caller(fde, regs)))
  }

  lemma {:induction false} StepsRefine(proc: Process, more: nat)
    requires proc.steps <= more
    ensures Refines(WalkerOf(proc), WalkerOf(proc.(steps := more)))
  {
    var small, large := WalkerOf(proc), WalkerOf(proc.(steps := more));
    forall fde: Fde, regs, actions
      ensures Settles(small.consult(fde, regs, actions), large.consult(fde, regs, actions))
    {
      ScanFuel(proc.m, fde.lsda, QueryOf(proc, fde, regs), actions, proc.steps, more);
    }
    forall fde, regs
      ensures Settles(small.caller(fde, regs), large.caller(fde, regs))
    {
      Unwind.UnwindFuel(proc.m, fde, regs, proc.steps, more);
    }
  }

  lemma {:induction false} WalkFuel<R>(small: RegisterFile -> Outcome<Turn<R>>,
                                       large: RegisterFile -> Outcome<Turn<R>>,
                                       regs: RegisterFile, frames: nat, more: nat)
    requires frames <= more && forall at :: Settles(small(at), large(at))
    ensures Settles(Walk(small, regs, frames), Walk(large, regs, more))
    decreases frames
  {
    if frames > 0 && small(regs).Ok? && small(regs).value.Climb? {
      WalkFuel(small, large, small(regs).value.next, frames - 1, more - 1);
    }
  }

  /** What becomes of a throw does not depend on the budgets, once they suffice. */
  lemma {:induction false} RaiseFuel(proc: Process, regs: RegisterFile, frames: nat, more: nat, further: nat)
    requires proc.steps <= more && frames <= further
    ensures Settles(RaiseException(WalkerOf(proc), regs, frames),
                    RaiseException(WalkerOf(proc.(steps := more)), regs, further))
  {
    StepsRefine(proc, more);
    WalkerFuel(WalkerOf(proc), WalkerOf(proc.(steps := more)), regs, frames, further);
  }

  lemma {:induction false} WalkerFuel(small: Walker, large: Walker, regs: RegisterFile, frames: nat, more: nat)
    requires Refines(small, large) && frames <= more
    ensures Settles(RaiseException(small, regs, frames), RaiseException(large, regs, more))
  {
    var first := FirstFrame(small, regs);
    if first.Ok? && first.value.Some? {
      var next := first.value.value;
      WalkFuel<u64>(SearchTurns(small), SearchTurns(large), next, frames, more);
      var searched := SearchFrom(small, next, frames);
      if searched.Ok? && searched.value.result.Some? {
        var handler := searched.value.result.value;
        WalkFuel(CleanupTurns(small, handler), CleanupTurns(large, handler), next, frames, more);
      }
    }
  }
}
