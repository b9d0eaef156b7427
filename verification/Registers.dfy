/**
 The register file of the thread being unwound (registers_intel_x64.h): a committed copy
 that is read and a temporary copy that is written, until a commit makes them equal.
 */
module Registers {
  import opened Words

  const NUM_REGISTERS: nat := 17
  const RSP: nat := 7
  const RIP: nat := 16

  /** The seventeen words of registers_intel_x64_t, in order. */
  type RegisterFile = f: seq<u64> | |f| == 17 witness seq(17, _ => 0)

  /** register_state::get: an index past the last register aborts. */
  function Get(file: RegisterFile, index: nat): Outcome<u64> {
    if index >= NUM_REGISTERS then Abort else Ok(file[index])
  }

  class RegisterState {
    var committed: RegisterFile
    var temporary: RegisterFile

    constructor (registers: RegisterFile)
      ensures committed == registers && temporary == registers
    {
      committed := registers;
      temporary := registers;
    }

    /** The two copies agree: nothing has been set since the last commit. */
    predicate Settled()
      reads this
    {
      temporary == committed
    }

    method GetIp() returns (ip: u64)
      ensures ip == committed[RIP]
    {
      ip := committed[RIP];
    }

    method GetRegister(index: nat) returns (r: Outcome<u64>)
      ensures r == Get(committed, index)
    {
      if index >= NUM_REGISTERS {
        return Abort;
      }
      return Ok(committed[index]);
    }

    method SetIp(value: u64)
      modifies this`temporary
      ensures temporary == old(temporary)[RIP := value]
    {
      temporary := temporary[RIP := value];
    }

    method Set(index: nat, value: u64) returns (r: Outcome<()>)
      modifies this`temporary
      ensures index < NUM_REGISTERS ==> r == Ok(()) && temporary == old(temporary)[index := value]
      ensures index >= NUM_REGISTERS ==> r == Abort && temporary == old(temporary)
    {
      if index >= NUM_REGISTERS {
        return Abort;
      }
      temporary := temporary[index := value];
      return Ok(());
    }

    method Commit()
      modifies this`committed
      ensures committed == temporary && Settled()
    {
      committed := temporary;
    }

    /** commit(cfa): the caller's stack pointer overrides whatever was set for it. */
    method CommitCfa(cfa: u64)
      modifies this
      ensures temporary == old(temporary)[RSP := cfa]
      ensures committed == temporary && Settled()
    {
      temporary := temporary[RSP := cfa];
      Commit();
    }
  }
}
