/**
 The expression machine in the source's own form: an array of 100 slots, an index `i` and a
 cursor `p`, updated in place.  A slot is `None` until it is written, and every read below is
 of a slot the verifier knows to be `Some`; the ghost `live` is the stack of the value model.
 */
module ExpressionArray {
  import opened Words
  import opened Memory
  import Leb128
  import opened Registers
  import opened Loops
  import opened Expression

  /** stack[0..|live|] holds exactly the words of `live`. */
  ghost predicate Live(stack: array<Option<u64>>, live: seq<u64>)
    reads stack
  {
    && stack.Length == STACK_SIZE
    && 1 <= |live| <= STACK_SIZE
    && forall k | 0 <= k < |live| :: stack[k] == Some(live[k])
  }

  /** The new cursor and index, and the array, agree with the value model's outcome. */
  ghost predicate Follows(stack: array<Option<u64>>, r: Outcome<(int, nat)>, model: Outcome<ExprState>)
    reads stack
  {
    match model
    case Ok(next) => r == Ok((next.p, |next.stack| - 1)) && Live(stack, next.stack)
    case Abort => r == Abort
    case Fault => r == Fault
    case Timeout => r == Timeout
  }

  method ExecutePush(m: Mem, regs: RegisterFile, opcode: byte, p: int, stack: array<Option<u64>>, i: nat,
                     ghost live: seq<u64>)
    returns (r: Outcome<(int, nat)>)
    requires IsPush(opcode)
    requires Live(stack, live) && |live| == i + 1 < STACK_SIZE
    modifies stack
    ensures Follows(stack, r, Execute(m, regs, opcode, p, live))
  {
    var operand :- Pushed(m, regs, opcode, p);
    var (word, q) := operand;
    stack[i + 1] := Some(word);
    return Ok((q, i + 1));
  }

  method ExecuteUnary(m: Mem, regs: RegisterFile, opcode: byte, p: int, stack: array<Option<u64>>, i: nat,
                      ghost live: seq<u64>)
    returns (r: Outcome<(int, nat)>)
    requires IsUnary(opcode)
    requires Live(stack, live) && |live| == i + 1 < STACK_SIZE
    modifies stack
    ensures Follows(stack, r, Execute(m, regs, opcode, p, live))
  {
    var operand :- Unary(m, opcode, p, stack[i].value);
    var (word, q) := operand;
    stack[i] := Some(word);
    return Ok((q, i));
  }

  method ExecuteBinary(m: Mem, regs: RegisterFile, opcode: byte, p: int, stack: array<Option<u64>>, i: nat,
                       ghost live: seq<u64>)
    returns (r: Outcome<(int, nat)>)
    requires IsBinary(opcode)
    requires Live(stack, live) && |live| == i + 1 < STACK_SIZE
    modifies stack
    ensures Follows(stack, r, Execute(m, regs, opcode, p, live))
  {
    if i == 0 {
      return Abort;
    }
    var top := stack[i].value;
    var word :- Binary(opcode, stack[i - 1].value, top);
    stack[i - 1] := Some(word);
    return Ok((p, i - 1));
  }

  method ExecuteShuffle(m: Mem, opcode: byte, p: int, stack: array<Option<u64>>, i: nat, ghost live: seq<u64>)
    returns (r: Outcome<(int, nat)>)
    requires IsShuffle(opcode)
    requires Live(stack, live) && |live| == i + 1 < STACK_SIZE
    modifies stack
    ensures Follows(stack, r, Shuffle(m, opcode, p, live))
  {
    if opcode == OP_DUP {
      stack[i + 1] := stack[i];
      return Ok((p, i + 1));
    } else if opcode == OP_DROP {
      return if i == 0 then Abort else Ok((p, i - 1));
    } else if opcode == OP_OVER {
      if i == 0 {
        return Abort;
      }
      stack[i + 1] := stack[i - 1];
      return Ok((p, i + 1));
    } else if opcode == OP_PICK {
      var index :- Read8(m, p);
      if index > i {
        return Abort;
      }
      stack[i + 1] := stack[i - index];
      return Ok((p + 1, i + 1));
    } else if opcode == OP_SWAP {
      if i == 0 {
        return Abort;
      }
      var value := stack[i];
      stack[i] := stack[i - 1];
      stack[i - 1] := value;
      return Ok((p, i));
    } else if opcode == OP_ROT {
      if i <= 1 {
        return Abort;
      }
      var value := stack[i];
      stack[i] := stack[i - 1];
      stack[i - 1] := stack[i - 2];
      stack[i - 2] := value;
      return Ok((p, i));
    } else {
      if i == 0 {
        return Abort;
      }
      var value := stack[i].value;
      if value == 0 {
        return Abort;
      }
      var word :- Read64(m, value);
      stack[i - 1] := Some(word);
      return Ok((p, i - 1));
    }
  }

  method ExecuteBranch(m: Mem, opcode: byte, p: int, stack: array<Option<u64>>, i: nat, ghost live: seq<u64>)
    returns (r: Outcome<(int, nat)>)
    requires opcode in {OP_SKIP, OP_BRA}
    requires Live(stack, live) && |live| == i + 1 < STACK_SIZE
    ensures Follows(stack, r, Branch(m, opcode, p, live))
  {
    if opcode == OP_SKIP {
      var d :- Displacement(m, p);
      return Ok((p + 2 + d, i));
    }
    if i == 0 {
      return Abort;
    }
    var d :- Displacement(m, p);
    var taken := stack[i].value != 0;
    return Ok((if taken then p + 2 + d else p + 2, i - 1));
  }

  /** One iteration of the loop, on the array. */
  method StepInPlace(m: Mem, regs: RegisterFile, p: int, stack: array<Option<u64>>, i: nat, ghost live: seq<u64>)
    returns (r: Outcome<(int, nat)>)
    requires Live(stack, live) && |live| == i + 1
    modifies stack
    ensures Follows(stack, r, Step(m, regs, ExprState(p, live)))
  {
    var opcode :- Read8(m, p);
    if i >= STACK_SIZE - 1 {
      return Abort;
    }
    if IsPush(opcode) {
      r := ExecutePush(m, regs, opcode, p + 1, stack, i, live);
    } else if IsUnary(opcode) {
      r := ExecuteUnary(m, regs, opcode, p + 1, stack, i, live);
    } else if IsBinary(opcode) {
      r := ExecuteBinary(m, regs, opcode, p + 1, stack, i, live);
    } else if IsShuffle(opcode) {
      r := ExecuteShuffle(m, opcode, p + 1, stack, i, live);
    } else if opcode in {OP_SKIP, OP_BRA} {
      r := ExecuteBranch(m, opcode, p + 1, stack, i, live);
    } else {
      r := Abort;
    }
  }

  /** private_parse_expression with its array; the loop gives up after `fuel` iterations. */
  method ParseExpressionInPlace(m: Mem, address: int, initial: u64, regs: RegisterFile, fuel: nat)
    returns (r: Outcome<u64>)
    ensures r == ParseExpression(m, address, initial, regs, fuel)
  {
    var stack := new Option<u64>[STACK_SIZE](_ => None);
    var i: nat := 0;
    stack[0] := Some(initial);
    ghost var live := [initial];
    var header := Leb128.DecodeUleb128(m, address);
    var operand :- header;
    var (length, p) := operand;
    var end := address + length;
    if end >= TWO64 {
      return Fault;
    }
    var left: nat := fuel;
    while true
      invariant fresh(stack) && Live(stack, live) && |live| == i + 1
      invariant left <= fuel
      invariant ParseExpression(m, address, initial, regs, fuel) == Run(m, regs, end, ExprState(p, live), left)
      decreases left
    {
      if left == 0 {
        return Timeout;
      }
      if p > end {
        break;
      }
      ghost var next := Step(m, regs, ExprState(p, live));
      var step := StepInPlace(m, regs, p, stack, i, live);
      var moved :- step;
      p, i := moved.0, moved.1;
      live := next.value.stack;
      left := left - 1;
    }
    return Ok(stack[i].value);
  }
}
