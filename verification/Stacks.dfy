/**
 Stacks of frames, and walks through them: a search comes to the first frame that catches and a
 cleanup phase to the first that lands the throw, whatever makes a frame do so.
 */
module Stacks {
  import opened Words
  import opened Registers
  import opened EhFrame
  import opened TwoPhase

  /////////////////////////////////////////////////////////////////////////////
  // Stacks of frames
  /////////////////////////////////////////////////////////////////////////////

  datatype Frame = Frame(fde: Fde, regs: RegisterFile)

  /**
   What there is to say of frames: which registers are those of a frame, or outside any function,
   where a frame returns to, and whether its function can answer, catches, or lands the throw.
   */
  datatype World = World(
    isFrame: Frame -> bool,
    isOutside: RegisterFile -> bool,
    caller: (Frame, RegisterFile) -> bool,
    answers: Frame -> bool,
    catches: Frame -> bool,
    lands: Frame -> bool,
    landed: (Frame, RegisterFile) -> bool)

  /** The frames from these registers on, each the caller of the one before. */
  predicate IsStack(w: World, from: RegisterFile, fs: seq<Frame>) {
    (fs != [] ==> fs[0].regs == from) && forall i | 0 <= i < |fs| :: StackAt(w, fs, i)
  }

  predicate StackAt(w: World, fs: seq<Frame>, i: nat)
    requires i < |fs|
  {
    w.isFrame(fs[i]) && (i + 1 < |fs| ==> w.caller(fs[i], fs[i + 1].regs))
  }

  /** Behind these frames there is none. */
  ghost predicate IsWhole(w: World, from: RegisterFile, fs: seq<Frame>) {
    IsStack(w, from, fs) && exists last: RegisterFile :: EndsIn(w, from, fs, last)
  }

  predicate EndsIn(w: World, from: RegisterFile, fs: seq<Frame>, last: RegisterFile) {
    w.isOutside(last) && if fs == [] then last == from else w.caller(fs[|fs| - 1], last)
  }

  predicate NoneCatches(w: World, fs: seq<Frame>) {
    forall i | 0 <= i < |fs| :: !w.catches(fs[i])
  }

  predicate NoneLands(w: World, fs: seq<Frame>, n: nat)
    requires n <= |fs|
  {
    forall i | 0 <= i < n :: !w.lands(fs[i])
  }

  predicate AllAnswer(w: World, fs: seq<Frame>) {
    forall i | 0 <= i < |fs| :: w.answers(fs[i])
  }

  /** What a search comes to: the start of the first function that catches, or the end of the stack. */
  ghost predicate Finds(w: World, from: RegisterFile, fs: seq<Frame>, handler: Option<u64>) {
    match handler
    case None => IsWhole(w, from, fs) && NoneCatches(w, fs)
    case Some(start) =>
      && fs != [] && IsStack(w, from, fs) && NoneCatches(w, fs[..|fs| - 1])
      && w.catches(fs[|fs| - 1]) && start == fs[|fs| - 1].fde.pcBegin
  }

  lemma {:induction false} FindsFurther(w: World, f: Frame, next: RegisterFile, fs: seq<Frame>, handler: Option<u64>)
    requires Finds(w, next, fs, handler) && w.isFrame(f) && w.caller(f, next) && !w.catches(f)
    ensures Finds(w, f.regs, [f] + fs, handler)
  {
    var all := [f] + fs;
    forall i | 0 <= i < |all|
      ensures StackAt(w, all, i)
    {
      if i > 0 {
        assert StackAt(w, fs, i - 1);
      }
    }
    if handler.Some? {
      assert all[..|all| - 1] == [f] + fs[..|fs| - 1];
    } else {
      var last: RegisterFile :| EndsIn(w, next, fs, last);
      assert EndsIn(w, f.regs, all, last);
    }
  }

  /////////////////////////////////////////////////////////////////////////////
  // Walks through them
  /////////////////////////////////////////////////////////////////////////////

  /** A turn that stops with n calls and this result, or climbs to these registers. */
  predicate Stops<R(==)>(turn: Outcome<Turn<R>>, n: nat, result: Option<R>) {
    turn.Ok? && turn.value.Stop? && |turn.value.calls| == n && turn.value.result == result
  }

  predicate ClimbsTo<R>(turn: Outcome<Turn<R>>, next: RegisterFile) {
    turn.Ok? && turn.value.Climb? && turn.value.next == next
  }

  /** A walk with n calls and this result. */
  predicate Walks<R(==)>(walked: Outcome<Walked<R>>, n: nat, result: Option<R>) {
    walked.Ok? && |walked.value.calls| == n && walked.value.result == result
  }

  lemma {:induction false} WalkTurns<R>(turns: RegisterFile -> Outcome<Turn<R>>, from: RegisterFile, frames: nat)
    requires Walk(turns, from, frames).Ok?
    ensures frames > 0 && turns(from).Ok?
    ensures var all := Walk(turns, from, frames).value;
            match turns(from).value
            case Stop(calls, result) => all == Walked(calls, result)
            case Climb(_, next) =>
              var rest := Walk(turns, next, frames - 1);
              rest.Ok? && all.result == rest.value.result && |all.calls| == 1 + |rest.value.calls|
  {
  }

  /** What the turns of a search are where they go well. */
  ghost predicate Searches(w: World, search: RegisterFile -> Outcome<Turn<u64>>) {
    forall at: RegisterFile | search(at).Ok? :: SearchTurnIs(w, at, search(at))
  }

  ghost predicate SearchTurnIs(w: World, at: RegisterFile, turn: Outcome<Turn<u64>>) {
    || (w.isOutside(at) && Stops(turn, 0, None))
    || exists fde: Fde :: FrameTurnIs(w, Frame(fde, at), turn)
  }

  predicate FrameTurnIs(w: World, f: Frame, turn: Outcome<Turn<u64>>) {
    && w.isFrame(f)
    && if w.catches(f) then Stops(turn, 1, Some(f.fde.pcBegin))
       else turn.Ok? && turn.value.Climb? && w.caller(f, turn.value.next)
  }

  /** A walk of such turns finds the first frame that catches, or the end of the stack. */
  lemma {:induction false} WalkFinds(w: World, search: RegisterFile -> Outcome<Turn<u64>>, from: RegisterFile,
                                     frames: nat)
    returns (fs: seq<Frame>)
    requires Searches(w, search) && Walk<u64>(search, from, frames).Ok?
    ensures var found := Walk<u64>(search, from, frames).value;
            Finds(w, from, fs, found.result) && |fs| == |found.calls|
    decreases frames
  {
    WalkTurns<u64>(search, from, frames);
    var turn := search(from);
    assert SearchTurnIs(w, from, turn);
    if w.isOutside(from) && Stops(turn, 0, None) {
      fs := [];
      assert EndsIn(w, from, fs, from);
    } else {
      var fde: Fde :| FrameTurnIs(w, Frame(fde, from), turn);
      fs := [Frame(fde, from)];
      if turn.value.Climb? {
        var rest := WalkFinds(w, search, turn.value.next, frames - 1);
        FindsFurther(w, fs[0], turn.value.next, rest, Walk<u64>(search, turn.value.next, frames - 1).value.result);
        fs := fs + rest;
      } else {
        assert StackAt(w, fs, 0);
      }
    }
  }

  /** The turns climb through these files and stop at the last. */
  predicate Traced<R(==)>(turns: RegisterFile -> Outcome<Turn<R>>, files: seq<RegisterFile>, n: nat,
                          result: Option<R>)
  {
    && files != [] && Stops(turns(files[|files| - 1]), n, result)
    && forall i | 0 <= i < |files| - 1 :: ClimbsAt(turns, files, i)
  }

  predicate ClimbsAt<R>(turns: RegisterFile -> Outcome<Turn<R>>, files: seq<RegisterFile>, i: nat)
    requires i + 1 < |files|
  {
    ClimbsTo(turns(files[i]), files[i + 1])
  }

  lemma {:induction false} WalkTraced<R>(turns: RegisterFile -> Outcome<Turn<R>>, files: seq<RegisterFile>, n: nat,
                                         result: Option<R>, frames: nat)
    requires Traced(turns, files, n, result) && |files| <= frames
    ensures Walks(Walk(turns, files[0], frames), |files| - 1 + n, result)
    decreases frames
  {
    if |files| > 1 {
      assert ClimbsAt(turns, files, 0);
      var rest := files[1..];
      forall i | 0 <= i < |rest| - 1
        ensures ClimbsAt(turns, rest, i)
      {
        assert ClimbsAt(turns, files, i + 1);
      }
      WalkTraced(turns, rest, n, result, frames - 1);
    }
  }

  function Files(fs: seq<Frame>): (files: seq<RegisterFile>)
    ensures |files| == |fs| && forall i | 0 <= i < |fs| :: files[i] == fs[i].regs
  {
    seq(|fs|, i requires 0 <= i < |fs| => fs[i].regs)
  }

  /** The turns of a search go well on frames that answer. */
  ghost predicate SearchesOn(w: World, search: RegisterFile -> Outcome<Turn<u64>>) {
    && (forall f | w.isFrame(f) && w.answers(f) && w.catches(f) :: Stops(search(f.regs), 1, Some(f.fde.pcBegin)))
    && (forall f, next | w.isFrame(f) && w.answers(f) && !w.catches(f) && w.caller(f, next) ::
          ClimbsTo(search(f.regs), next))
    && (forall at | w.isOutside(at) :: Stops(search(at), 0, None))
  }

  /** So a search comes to what is there to find. */
  lemma {:induction false} SearchWalks(w: World, search: RegisterFile -> Outcome<Turn<u64>>, from: RegisterFile,
                                       fs: seq<Frame>, handler: Option<u64>, frames: nat)
    requires SearchesOn(w, search) && Finds(w, from, fs, handler) && AllAnswer(w, fs) && |fs| < frames
    ensures Walks(Walk<u64>(search, from, frames), |fs|, handler)
  {
    var last := from;
    if handler.None? {
      last :| EndsIn(w, from, fs, last);
    }
    var files := if handler.Some? then Files(fs) else Files(fs) + [last];
    forall i: nat | i < |files| - 1
      ensures ClimbsAt(search, files, i)
    {
      assert StackAt(w, fs, i);
      if handler.Some? {
        assert fs[..|fs| - 1][i] == fs[i];
      }
      assert w.caller(fs[i], files[i + 1]);
    }
    if handler.Some? {
      assert StackAt(w, fs, |fs| - 1);
    }
    WalkTraced<u64>(search, files, if handler.Some? then 1 else 0, handler, frames);
  }

  /** The turns of a cleanup phase go well on frames that answer. */
  ghost predicate CleansOn(w: World, clean: RegisterFile -> Outcome<Turn<RegisterFile>>) {
    && (forall f | w.isFrame(f) && w.answers(f) && w.lands(f) :: LandsThere(w, f, clean(f.regs)))
    && (forall f, next | w.isFrame(f) && w.answers(f) && !w.lands(f) && w.caller(f, next) ::
          ClimbsTo(clean(f.regs), next))
  }

  predicate LandsThere(w: World, f: Frame, turn: Outcome<Turn<RegisterFile>>) {
    && turn.Ok? && turn.value.Stop? && |turn.value.calls| == 1 && turn.value.result.Some?
    && w.landed(f, turn.value.result.value)
  }

  /** The first frame of a stack that lands the throw. */
  predicate LandsFirst(w: World, fs: seq<Frame>, j: nat, file: RegisterFile) {
    j < |fs| && NoneLands(w, fs, j) && w.lands(fs[j]) && w.landed(fs[j], file)
  }

  lemma {:induction false} FirstLanding(w: World, fs: seq<Frame>, n: nat) returns (j: nat)
    requires n < |fs| && w.lands(fs[n])
    ensures j <= n && NoneLands(w, fs, j) && w.lands(fs[j])
    decreases n
  {
    j := n;
    if i :| 0 <= i < n && w.lands(fs[i]) {
      j := FirstLanding(w, fs, i);
    }
  }

  /** So a cleanup phase resumes in the first frame that lands the throw. */
  lemma {:induction false} CleanupWalks(w: World, clean: RegisterFile -> Outcome<Turn<RegisterFile>>,
                                        from: RegisterFile, fs: seq<Frame>, frames: nat)
    returns (j: nat, file: RegisterFile)
    requires CleansOn(w, clean) && IsStack(w, from, fs) && AllAnswer(w, fs) && 0 < |fs| < frames
    requires w.lands(fs[|fs| - 1])
    ensures LandsFirst(w, fs, j, file) && Walks(Walk(clean, from, frames), j + 1, Some(file))
  {
    j := FirstLanding(w, fs, |fs| - 1);
    assert StackAt(w, fs, j) && LandsThere(w, fs[j], clean(fs[j].regs));
    file := clean(fs[j].regs).value.result.value;
    var files := Files(fs)[..j + 1];
    forall i: nat | i < |files| - 1
      ensures ClimbsAt(clean, files, i)
    {
      assert StackAt(w, fs, i) && w.caller(fs[i], files[i + 1]);
    }
    WalkTraced(clean, files, 1, Some(file), frames);
  }
}
