/**
 The call-frame machine in the source's own form: the row, the cursor and the location are
 updated in place, and remembered rows are copied into an array of ten.
 */
module CfiMachine {
  import opened Words
  import opened Memory
  import opened EhFrame
  import opened Cfi

  /** What one instruction leaves: the cursor, the location, the row and the remember index. */
  datatype Progress = Progress(p: int, loc: u64, row: Row, index: nat)

  /** The registers of the loop and the array agree with the value model's outcome. */
  ghost predicate Follows(stack: array<Row>, r: Outcome<Progress>, model: Outcome<CfiState>)
    reads stack
  {
    match model
    case Ok(next) =>
      && r == Ok(Progress(next.p, next.loc, next.row, |next.saved|))
      && |next.saved| <= stack.Length == REMEMBER_STACK_SIZE
      && stack[..|next.saved|] == next.saved
    case Abort => r == Abort
    case Fault => r == Fault
    case Timeout => r == Timeout
  }

  method ParseInstruction(m: Mem, cie: Cie, initial: Row, s: Progress, stack: array<Row>) returns (r: Outcome<Progress>)
    requires stack.Length == REMEMBER_STACK_SIZE && s.index <= REMEMBER_STACK_SIZE
    modifies stack
    ensures Follows(stack, r, Step(m, cie, initial, CfiState(s.p, s.loc, s.row, old(stack[..s.index]))))
  {
    var b :- Read8(m, s.p);
    var opcode, operand := Opcode(b), b % 64;
    var p := s.p + 1;
    if IsAdvance(opcode) || opcode == CFA_SET_LOC {
      var moved :- Moved(m, cie, opcode, operand, p, s.loc);
      return Ok(s.(p := moved.0, loc := moved.1));
    } else if opcode == CFA_REMEMBER_STATE {
      if s.index >= REMEMBER_STACK_SIZE {
        return Abort;
      }
      stack[s.index] := s.row;
      return Ok(s.(p := p, index := s.index + 1));
    } else if opcode == CFA_RESTORE_STATE {
      if s.index == 0 {
        return Abort;
      }
      return Ok(s.(p := p, row := stack[s.index - 1], index := s.index - 1));
    } else {
      var changed :- RowInstruction(m, cie, initial, opcode, operand, p, s.row);
      return Ok(s.(p := changed.0, row := changed.1));
    }
  }

  /** private_parse_instructions. */
  method ParseInstructions(m: Mem, cie: Cie, row: Row, p: int, end: int, target: u64) returns (r: Outcome<Row>)
    ensures r == RunTo(m, cie, row, end, target, Start(p, row))
  {
    var stack := new Row[REMEMBER_STACK_SIZE](_ => DefaultRow());
    var s := Progress(p, 0, row, 0);
    while s.p < end && target >= s.loc
      invariant fresh(stack) && s.index <= REMEMBER_STACK_SIZE
      invariant RunTo(m, cie, row, end, target, Start(p, row)) ==
                RunTo(m, cie, row, end, target, CfiState(s.p, s.loc, s.row, stack[..s.index]))
      decreases if s.p < end then end - s.p else 0
    {
      var step := ParseInstruction(m, cie, row, s, stack);
      s :- step;
    }
    return Ok(s.row);
  }

  /** private_decode_cfi. */
  method DecodeRow(m: Mem, fde: Fde, ip: u64) returns (r: Outcome<Row>)
    ensures r == DecodeCfi(m, fde, ip)
  {
    var cie := fde.cie;
    var first := ParseInstructions(m, cie, DefaultRow(), cie.instructions, cie.extent.end, 0);
    var initial :- first;
    r := ParseInstructions(m, cie, initial, fde.instructions, fde.extent.end, Wrap((ip as int) - fde.pcBegin));
  }
}
