/**
 What becomes of a throw, said of the process itself: the frames that find_fde and dwarf4::unwind
 give, the personality routines of their functions, and what the tables of these list.
 */
module Throwing {
  import opened Words
  import opened Memory
  import opened Registers
  import opened EhFrame
  import opened Personality
  import opened LsdaTables
  import opened TwoPhase
  import opened Stacks
  import Unwind

  /////////////////////////////////////////////////////////////////////////////
  // The frames of a process
  /////////////////////////////////////////////////////////////////////////////

  predicate IsFrame(proc: Process, f: Frame) {
    FindFde(proc.m, proc.section, f.regs[16]) == Ok(f.fde) && f.fde.Exists()
  }

  /** find_fde finds no function for these registers. */
  predicate IsOutside(proc: Process, regs: RegisterFile) {
    var found := FindFde(proc.m, proc.section, regs[16]);
    found.Ok? && !found.value.Exists()
  }

  predicate Returns(proc: Process, f: Frame, caller: RegisterFile) {
    Unwind.UnwindRegisters(proc.m, f.fde, f.regs, proc.steps) == Ok(caller)
  }

  /** _Unwind_RaiseException itself, with the registers it has stored, was called from `from`. */
  ghost predicate CalledFrom(proc: Process, regs: RegisterFile, from: RegisterFile) {
    exists own: Fde :: IsFrame(proc, Frame(own, regs)) && Returns(proc, Frame(own, regs), from)
  }

  /** Both phases begin behind the frame of _Unwind_RaiseException. */
  lemma {:induction false} EntryIs(proc: Process, regs: RegisterFile, from: RegisterFile, frames: nat)
    requires CalledFrom(proc, regs, from)
    ensures Phase1(WalkerOf(proc), regs, frames) == SearchFrom(WalkerOf(proc), from, frames)
    ensures forall handler :: Phase2(WalkerOf(proc), handler, regs, frames) ==
                              CleanupFrom(WalkerOf(proc), handler, from, frames)
  {
    var own: Fde :| IsFrame(proc, Frame(own, regs)) && Returns(proc, Frame(own, regs), from);
    assert FirstFrame(WalkerOf(proc), regs) == Ok(Some(from));
  }

  /////////////////////////////////////////////////////////////////////////////
  // The personality routines
  /////////////////////////////////////////////////////////////////////////////

  /** The CIE of the function points to a routine. */
  predicate HasRoutine(m: Mem, fde: Fde) {
    fde.cie.personality != 0 && Read64(m, fde.cie.personality).Ok? && Read64(m, fde.cie.personality).value != 0
  }

  /** It has no pointer, or one to a null routine. */
  predicate NoRoutine(m: Mem, fde: Fde) {
    fde.cie.personality == 0 || Read64(m, fde.cie.personality) == Ok(0)
  }

  /** What the routine is asked: the start of the function, the throwing instruction, the type. */
  function QueryIn(proc: Process, f: Frame): Query {
    Query(f.fde.pcBegin, Wrap((f.regs[16] as int) - 1), proc.thrownType)
  }

  /** private_personality asks the routine of the frame if there is one, and lets the unwind continue if not. */
  lemma {:induction false} RoutineAsked(proc: Process, f: Frame, actions: Actions)
    ensures var asked := WalkerOf(proc).consult(f.fde, f.regs, actions);
            && (NoRoutine(proc.m, f.fde) ==> asked == Ok(ContinueUnwind))
            && (HasRoutine(proc.m, f.fde) ==>
                  asked == Scan(proc.m, f.fde.lsda, QueryIn(proc, f), actions, proc.steps))
            && (asked.Ok? ==> NoRoutine(proc.m, f.fde) || HasRoutine(proc.m, f.fde))
  {
  }

  /** The turns of both phases, by the verdict of the routine. */
  lemma {:induction false} SearchTurnBy(proc: Process, f: Frame, verdict: Verdict)
    requires IsFrame(proc, f) && WalkerOf(proc).consult(f.fde, f.regs, SEARCH) == Ok(verdict)
    ensures var turn := SearchTurns(WalkerOf(proc))(f.regs);
            && (verdict == HandlerFound ==> Stops(turn, 1, Some(f.fde.pcBegin)))
            && (verdict == ContinueUnwind ==>
                  && (forall next | Returns(proc, f, next) :: ClimbsTo(turn, next))
                  && (turn.Ok? ==> turn.value.Climb? && Returns(proc, f, turn.value.next)))
  {
    assert SearchTurns(WalkerOf(proc))(f.regs) == SearchTurn(WalkerOf(proc), f.regs);
  }

  lemma {:induction false} OutsideTurn(proc: Process, at: RegisterFile)
    requires IsOutside(proc, at)
    ensures Stops(SearchTurns(WalkerOf(proc))(at), 0, None)
  {
    assert SearchTurns(WalkerOf(proc))(at) == SearchTurn(WalkerOf(proc), at);
  }

  /** A landing pad runs in its frame: the exception and the type index in the first two registers. */
  predicate RunsPad(proc: Process, f: Frame, typeIndex: u64, landingPad: u64, file: RegisterFile) {
    && file[0] == proc.exception && file[1] == typeIndex && file[16] == landingPad
    && forall r: nat | 1 < r < 16 :: file[r] == f.regs[r]
  }

  lemma {:induction false} CleanupTurnBy(proc: Process, handler: u64, f: Frame, verdict: Verdict)
    requires IsFrame(proc, f)
    requires WalkerOf(proc).consult(f.fde, f.regs, Cleanup(handler == f.fde.pcBegin)) == Ok(verdict)
    ensures var turn := CleanupTurns(WalkerOf(proc), handler)(f.regs);
            && (verdict.Install? ==>
                  && turn.Ok? && turn.value.Stop? && |turn.value.calls| == 1 && turn.value.result.Some?
                  && RunsPad(proc, f, verdict.typeIndex, verdict.landingPad, turn.value.result.value))
            && (verdict == ContinueUnwind ==> forall next | Returns(proc, f, next) :: ClimbsTo(turn, next))
  {
    assert CleanupTurns(WalkerOf(proc), handler)(f.regs) == CleanupTurn(WalkerOf(proc), handler, f.regs);
  }

  /////////////////////////////////////////////////////////////////////////////
  // Any tables
  /////////////////////////////////////////////////////////////////////////////

  /** The frame has a routine, and an action of its table catches. */
  ghost predicate Catching(proc: Process, f: Frame) {
    && HasRoutine(proc.m, f.fde) && ParseLsda(proc.m, f.fde.lsda).Ok?
    && exists k: nat, n: nat :: Catches(proc.m, ParseLsda(proc.m, f.fde.lsda).value, QueryIn(proc, f), k, n)
  }

  /** The frame has no routine, or one whose table can be scanned to its end. */
  ghost predicate Answerable(proc: Process, f: Frame) {
    || NoRoutine(proc.m, f.fde)
    || (&& HasRoutine(proc.m, f.fde) && ParseLsda(proc.m, f.fde.lsda).Ok?
        && Finite(proc.m, ParseLsda(proc.m, f.fde.lsda).value, QueryIn(proc, f), proc.steps))
  }

  /** The frames of a process, for a search. */
  ghost function FramesOf(proc: Process): World {
    World((f: Frame) => IsFrame(proc, f), (regs: RegisterFile) => IsOutside(proc, regs),
          (f: Frame, next: RegisterFile) => Returns(proc, f, next),
          (f: Frame) => Answerable(proc, f), (f: Frame) => Catching(proc, f),
          (f: Frame) => false, (f: Frame, file: RegisterFile) => false)
  }

  lemma {:induction false} CatchingFound(proc: Process, f: Frame)
    requires WalkerOf(proc).consult(f.fde, f.regs, SEARCH).Ok?
    ensures WalkerOf(proc).consult(f.fde, f.regs, SEARCH) ==
            Ok(if Catching(proc, f) then HandlerFound else ContinueUnwind)
  {
    RoutineAsked(proc, f, SEARCH);
    if !NoRoutine(proc.m, f.fde) {
      SearchFindsHandler(proc.m, f.fde.lsda, QueryIn(proc, f), proc.steps);
    }
  }

  lemma {:induction false} AnswerFound(proc: Process, f: Frame)
    requires Answerable(proc, f)
    ensures WalkerOf(proc).consult(f.fde, f.regs, SEARCH).Ok?
  {
    RoutineAsked(proc, f, SEARCH);
    if !NoRoutine(proc.m, f.fde) {
      SearchIsExact(proc.m, f.fde.lsda, QueryIn(proc, f), proc.steps);
    }
  }

  lemma {:induction false} TurnIs(proc: Process, at: RegisterFile)
    requires SearchTurns(WalkerOf(proc))(at).Ok?
    ensures SearchTurnIs(FramesOf(proc), at, SearchTurns(WalkerOf(proc))(at))
  {
    var w, turn := FramesOf(proc), SearchTurns(WalkerOf(proc))(at);
    assert turn == SearchTurn(WalkerOf(proc), at);
    if IsOutside(proc, at) {
      OutsideTurn(proc, at);
    } else {
      var f := Frame(FindFde(proc.m, proc.section, at[16]).value, at);
      CatchingFound(proc, f);
      SearchTurnBy(proc, f, if Catching(proc, f) then HandlerFound else ContinueUnwind);
      assert FrameTurnIs(w, f, turn);
    }
  }

  /**
   Wherever the search comes to an end, it is at the first frame that has a routine and whose table
   catches, or at the end of the stack.
   */
  lemma {:induction false} SearchComesTo(proc: Process, regs: RegisterFile, frames: nat)
    returns (from: RegisterFile, fs: seq<Frame>)
    requires Phase1(WalkerOf(proc), regs, frames).Ok?
    ensures var found := Phase1(WalkerOf(proc), regs, frames).value;
            && |fs| == |found.calls|
            && if IsOutside(proc, regs) then fs == [] && found.result == None
               else CalledFrom(proc, regs, from) && Finds(FramesOf(proc), from, fs, found.result)
  {
    var w := WalkerOf(proc);
    from, fs := regs, [];
    if !IsOutside(proc, regs) {
      from := FirstFrame(w, regs).value.value;
      assert IsFrame(proc, Frame(w.frame(regs).value, regs)) && Returns(proc, Frame(w.frame(regs).value, regs), from);
      forall at: RegisterFile | SearchTurns(w)(at).Ok?
        ensures SearchTurnIs(FramesOf(proc), at, SearchTurns(w)(at))
      {
        TurnIs(proc, at);
      }
      fs := WalkFinds(FramesOf(proc), SearchTurns(w), from, frames);
    }
  }

  lemma {:induction false} SearchGoesOn(proc: Process)
    ensures SearchesOn(FramesOf(proc), SearchTurns(WalkerOf(proc)))
  {
    forall f | IsFrame(proc, f) && Answerable(proc, f)
      ensures Catching(proc, f) ==> Stops(SearchTurns(WalkerOf(proc))(f.regs), 1, Some(f.fde.pcBegin))
      ensures forall next | !Catching(proc, f) && Returns(proc, f, next) ::
                ClimbsTo(SearchTurns(WalkerOf(proc))(f.regs), next)
    {
      AnswerFound(proc, f);
      CatchingFound(proc, f);
      SearchTurnBy(proc, f, if Catching(proc, f) then HandlerFound else ContinueUnwind);
    }
    forall at | IsOutside(proc, at)
      ensures Stops(SearchTurns(WalkerOf(proc))(at), 0, None)
    {
      OutsideTurn(proc, at);
    }
  }

  /** And it does come to the first such frame, or to the end, if the frames up to there can be answered. */
  lemma {:induction false} SearchMustComeTo(proc: Process, regs: RegisterFile, from: RegisterFile, fs: seq<Frame>,
                                            handler: Option<u64>, frames: nat)
    requires CalledFrom(proc, regs, from) && Finds(FramesOf(proc), from, fs, handler)
    requires AllAnswer(FramesOf(proc), fs) && |fs| < frames
    ensures Walks(Phase1(WalkerOf(proc), regs, frames), |fs|, handler)
  {
    SearchGoesOn(proc);
    SearchWalks(FramesOf(proc), SearchTurns(WalkerOf(proc)), from, fs, handler, frames);
    EntryIs(proc, regs, from, frames);
  }

  /////////////////////////////////////////////////////////////////////////////
  // Listed tables
  /////////////////////////////////////////////////////////////////////////////

  /** What the tables of functions list; None for a function without a personality routine. */
  type Listing = Fde -> Option<Tables>

  /** The memory holds what the listing says of the function. */
  ghost predicate ListedAs(proc: Process, fde: Fde, listed: Option<Tables>) {
    match listed
    case None => NoRoutine(proc.m, fde)
    case Some(t) => HasRoutine(proc.m, fde) && Written(proc.m, fde.lsda, t) && Short(t, proc.steps)
  }

  /** A handler of the thrown type is listed around the throwing instruction. */
  ghost predicate HandlerListed(proc: Process, f: Frame, listed: Option<Tables>) {
    listed.Some? && exists k: nat, n: nat :: Handles(listed.value, QueryIn(proc, f), k, n)
  }

  /** Such a handler or a cleanup is. */
  ghost predicate LandingListed(proc: Process, f: Frame, listed: Option<Tables>) {
    listed.Some? && exists k: nat, n: nat :: Lands(listed.value, QueryIn(proc, f), k, n)
  }

  /** The file is that of the landing pad of the first of them. */
  ghost predicate AtListed(proc: Process, f: Frame, listed: Option<Tables>, file: RegisterFile) {
    listed.Some? && exists k: nat, n: nat :: AtPlace(proc, f, listed.value, k, n, file)
  }

  ghost predicate AtPlace(proc: Process, f: Frame, t: Tables, k: nat, n: nat, file: RegisterFile) {
    && IsFirst(t, QueryIn(proc, f), k, n)
    && RunsPad(proc, f, t.sites[k].chain[n], Wrap(f.fde.pcBegin + t.sites[k].landingPad), file)
  }

  /** The frames of a process, by what is listed for their functions. */
  ghost function ListedFrames(proc: Process, tell: Listing): World {
    World((f: Frame) => IsFrame(proc, f), (regs: RegisterFile) => IsOutside(proc, regs),
          (f: Frame, next: RegisterFile) => Returns(proc, f, next),
          (f: Frame) => ListedAs(proc, f.fde, tell(f.fde)), (f: Frame) => HandlerListed(proc, f, tell(f.fde)),
          (f: Frame) => LandingListed(proc, f, tell(f.fde)),
          (f: Frame, file: RegisterFile) => AtListed(proc, f, tell(f.fde), file))
  }

  lemma {:induction false} ListedSearch(proc: Process, f: Frame, listed: Option<Tables>)
    requires ListedAs(proc, f.fde, listed)
    ensures WalkerOf(proc).consult(f.fde, f.regs, SEARCH) ==
            Ok(if HandlerListed(proc, f, listed) then HandlerFound else ContinueUnwind)
  {
    RoutineAsked(proc, f, SEARCH);
    if listed.Some? {
      SearchAnswers(proc.m, f.fde.lsda, listed.value, QueryIn(proc, f), proc.steps);
    }
  }

  lemma {:induction false} ListedCleanup(proc: Process, f: Frame, listed: Option<Tables>, handlerFrame: bool)
    requires ListedAs(proc, f.fde, listed)
    ensures var asked := WalkerOf(proc).consult(f.fde, f.regs, Cleanup(handlerFrame));
            && asked.Ok?
            && (if listed.None? then asked.value == ContinueUnwind
                else CleanupAnswer(listed.value, QueryIn(proc, f), asked.value))
  {
    RoutineAsked(proc, f, Cleanup(handlerFrame));
    if listed.Some? {
      CleanupAnswers(proc.m, f.fde.lsda, listed.value, QueryIn(proc, f), handlerFrame, proc.steps);
    }
  }

  lemma {:induction false} ListedSearchesOn(proc: Process, tell: Listing)
    ensures SearchesOn(ListedFrames(proc, tell), SearchTurns(WalkerOf(proc)))
  {
    forall f | IsFrame(proc, f) && ListedAs(proc, f.fde, tell(f.fde))
      ensures HandlerListed(proc, f, tell(f.fde)) ==>
                Stops(SearchTurns(WalkerOf(proc))(f.regs), 1, Some(f.fde.pcBegin))
      ensures forall next | !HandlerListed(proc, f, tell(f.fde)) && Returns(proc, f, next) ::
                ClimbsTo(SearchTurns(WalkerOf(proc))(f.regs), next)
    {
      ListedSearch(proc, f, tell(f.fde));
      SearchTurnBy(proc, f, if HandlerListed(proc, f, tell(f.fde)) then HandlerFound else ContinueUnwind);
    }
    forall at | IsOutside(proc, at)
      ensures Stops(SearchTurns(WalkerOf(proc))(at), 0, None)
    {
      OutsideTurn(proc, at);
    }
  }

  lemma {:induction false} AnswerLands(proc: Process, f: Frame, t: Tables, verdict: Verdict, file: RegisterFile)
    requires CleanupAnswer(t, QueryIn(proc, f), verdict)
    requires verdict.Install? ==> RunsPad(proc, f, verdict.typeIndex, verdict.landingPad, file)
    ensures verdict.Install? || verdict == ContinueUnwind
    ensures verdict.Install? <==> LandingListed(proc, f, Some(t))
    ensures verdict.Install? ==> AtListed(proc, f, Some(t), file)
  {
    var q := QueryIn(proc, f);
    if verdict != ContinueUnwind {
      var k: nat, n: nat :| IsFirst(t, q, k, n) && InstallsAt(t, q, k, n, verdict);
      assert Lands(t, q, k, n) && AtPlace(proc, f, t, k, n, file);
    }
  }

  /** A turn of the cleanup phase that lands the throw, or climbs to wherever the frame returns. */
  ghost predicate ListedTurnIs(proc: Process, f: Frame, listed: Option<Tables>, turn: Outcome<Turn<RegisterFile>>) {
    if LandingListed(proc, f, listed) then
      && turn.Ok? && turn.value.Stop? && |turn.value.calls| == 1 && turn.value.result.Some?
      && AtListed(proc, f, listed, turn.value.result.value)
    else forall next | Returns(proc, f, next) :: ClimbsTo(turn, next)
  }

  lemma {:induction false} TurnLands(proc: Process, handler: u64, f: Frame, listed: Option<Tables>, verdict: Verdict)
    requires IsFrame(proc, f)
    requires WalkerOf(proc).consult(f.fde, f.regs, Cleanup(handler == f.fde.pcBegin)) == Ok(verdict)
    requires if listed.None? then verdict == ContinueUnwind
             else CleanupAnswer(listed.value, QueryIn(proc, f), verdict)
    ensures ListedTurnIs(proc, f, listed, CleanupTurns(WalkerOf(proc), handler)(f.regs))
  {
    CleanupTurnBy(proc, handler, f, verdict);
    var turn := CleanupTurns(WalkerOf(proc), handler)(f.regs);
    if listed.Some? {
      AnswerLands(proc, f, listed.value, verdict, if verdict.Install? then turn.value.result.value else f.regs);
    }
  }

  /** The cleanup phase on one listed frame. */
  lemma {:induction false} ListedTurn(proc: Process, handler: u64, f: Frame, listed: Option<Tables>)
    requires IsFrame(proc, f) && ListedAs(proc, f.fde, listed)
    ensures ListedTurnIs(proc, f, listed, CleanupTurns(WalkerOf(proc), handler)(f.regs))
  {
    ListedCleanup(proc, f, listed, handler == f.fde.pcBegin);
    TurnLands(proc, handler, f, listed,
              WalkerOf(proc).consult(f.fde, f.regs, Cleanup(handler == f.fde.pcBegin)).value);
  }

  lemma {:induction false} ListedCleansOn(proc: Process, tell: Listing, handler: u64)
    ensures CleansOn(ListedFrames(proc, tell), CleanupTurns(WalkerOf(proc), handler))
  {
    var w := ListedFrames(proc, tell);
    forall f | IsFrame(proc, f) && ListedAs(proc, f.fde, tell(f.fde))
      ensures LandingListed(proc, f, tell(f.fde)) ==>
                LandsThere(w, f, CleanupTurns(WalkerOf(proc), handler)(f.regs))
      ensures forall next | !LandingListed(proc, f, tell(f.fde)) && Returns(proc, f, next) ::
                ClimbsTo(CleanupTurns(WalkerOf(proc), handler)(f.regs), next)
    {
      ListedTurn(proc, handler, f, tell(f.fde));
    }
  }

  lemma {:induction false} HandlersLand(proc: Process, f: Frame, listed: Option<Tables>)
    requires HandlerListed(proc, f, listed)
    ensures LandingListed(proc, f, listed)
  {
    var k: nat, n: nat :| Handles(listed.value, QueryIn(proc, f), k, n);
    assert Lands(listed.value, QueryIn(proc, f), k, n);
  }

  /** A throw resumes with the registers of the first landing pad listed on the way to its handler. */
  ghost predicate Landed(proc: Process, tell: Listing, fs: seq<Frame>, raised: Outcome<Raised>) {
    && raised.Ok? && raised.value.Resumed?
    && exists j: nat :: LandsFirst(ListedFrames(proc, tell), fs, j, raised.value.regs)
  }

  /**
   A throw through frames whose tables are listed: if a handler of its type is listed in one of
   them, it ends in the first frame that lists a handler or a cleanup around its throwing
   instruction, at the landing pad of the first one listed there, with the exception and its type
   index in the first two registers and the others as the frame has them.  If none is, it returns
   END_OF_STACK.
   */
  lemma {:induction false} ThrowLands(proc: Process, tell: Listing, regs: RegisterFile, from: RegisterFile,
                                      fs: seq<Frame>, handler: Option<u64>, frames: nat)
    requires CalledFrom(proc, regs, from) && Finds(ListedFrames(proc, tell), from, fs, handler)
    requires AllAnswer(ListedFrames(proc, tell), fs) && |fs| < frames
    ensures var raised := RaiseException(WalkerOf(proc), regs, frames);
            if handler.None? then raised == Ok(Returned(EndOfStack)) else Landed(proc, tell, fs, raised)
  {
    ListedSearchesOn(proc, tell);
    SearchWalks(ListedFrames(proc, tell), SearchTurns(WalkerOf(proc)), from, fs, handler, frames);
    EntryIs(proc, regs, from, frames);
    if handler.Some? {
      ThrowCleansUp(proc, tell, handler.value, from, fs, frames);
    }
  }

  lemma {:induction false} ThrowCleansUp(proc: Process, tell: Listing, handler: u64, from: RegisterFile,
                                         fs: seq<Frame>, frames: nat)
    requires Finds(ListedFrames(proc, tell), from, fs, Some(handler))
    requires AllAnswer(ListedFrames(proc, tell), fs) && |fs| < frames
    ensures var cleaned := CleanupFrom(WalkerOf(proc), handler, from, frames);
            && cleaned.Ok? && cleaned.value.result.Some?
            && exists j: nat :: LandsFirst(ListedFrames(proc, tell), fs, j, cleaned.value.result.value)
  {
    var w, last := ListedFrames(proc, tell), fs[|fs| - 1];
    HandlersLand(proc, last, tell(last.fde));
    ListedCleansOn(proc, tell, handler);
    var j, file := CleanupWalks(w, CleanupTurns(WalkerOf(proc), handler), from, fs, frames);
  }
}
