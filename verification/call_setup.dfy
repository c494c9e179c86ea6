/** Setting up a thread to call a function with up to six integer or pointer
    arguments: arguments into the argument registers, the return address
    pushed on a 16-byte-aligned stack, then the stack pointer and program
    counter. Every register and memory write may fail; a failure stops the
    setup where it happened. */
module CallSetup {
  import opened Base
  import opened Registers
  import opened Machine

  /** The outcome of a setup: whether it succeeded, and the thread state
      after the writes it performed (all of them, or those before a failure). */
  datatype CallResult = CallResult(ok: bool, thread: Inferior)

  /** The stack pointer the callee starts with: the given one rounded down
      to 16 bytes, less the 8-byte slot for the return address, in 64-bit
      unsigned arithmetic. */
  function CallStack(sp: u64): (r: u64)
    ensures r % 16 == 8
    ensures sp >= 16 ==> r <= sp && sp - r < 24 && (r + 8) % 16 == 0
    ensures sp < 16 ==> r == TWO_TO_64 - 8
  {
    var aligned := sp - sp % 16;
    // below 16 the rounded stack pointer is zero and the subtraction wraps
    if aligned == 0 then TWO_TO_64 - 8
    else
      AlignedLessEight(aligned);
      aligned - 8
  }

  lemma AlignedLessEight(a: int)
    requires a > 0 && a % 16 == 0
    ensures (a - 8) % 16 == 8 && (a - 8 + 8) % 16 == 0
  {
    ModUnique(a - 8, 16, a / 16 - 1, 8);
  }

  /** Writes `args[i..]` into the argument registers ARG(i+1).. in order,
      stopping at the first write that fails. */
  function WriteArguments(rf: RegisterFile, args: seq<u64>, i: nat): (res: (bool, RegisterFile))
    requires i <= |args| <= 6
    ensures res.1.writable == rf.writable && res.1.vec == rf.vec
    ensures res.0 <==> forall j :: i <= j < |args| ==> ArgumentRegisters[j] in rf.writable
    ensures res.0 ==> forall j :: i <= j < |args| ==> ReadUnsigned(res.1, ArgumentRegisters[j]) == args[j]
    ensures forall r :: r !in ArgumentRegisters[i..|args|] ==> ReadUnsigned(res.1, r) == ReadUnsigned(rf, r)
    decreases |args| - i
  {
    if i == |args| then (true, rf)
    else
      ArgumentRole(i);
      // the role table always has an ARG(i+1) register for i < 6
      var r := RegisterForRole(Arg(i + 1)).value;
      ArgumentsFrom(i, |args|);
      match WriteUnsigned(rf, r, args[i])
      case None => (false, rf)
      case Some(rf') => WriteArguments(rf', args, i + 1)
  }

  /** The argument registers from `i` on are register `i` followed by the
      rest, none of which is register `i` again. */
  lemma ArgumentsFrom(i: nat, n: nat)
    requires i < n <= 6
    ensures ArgumentRegisters[i..n] == [ArgumentRegisters[i]] + ArgumentRegisters[i + 1..n]
    ensures ArgumentRegisters[i] !in ArgumentRegisters[i + 1..n]
  {
    var s := ArgumentRegisters;
    assert s[i..n] == [s[i]] + s[i + 1..n] by {
      assert forall k :: 0 <= k < n - i ==> s[i..n][k] == ([s[i]] + s[i + 1..n])[k];
    }
  }

  /** Writes the stack pointer and then the program counter. */
  function WriteFrameRegisters(rf: RegisterFile, sp: u64, pc: u64): (res: (bool, RegisterFile))
    ensures res.0 <==> RSP in rf.writable && RIP in rf.writable
    ensures res.0 ==> ReadUnsigned(res.1, RSP) == sp && ReadUnsigned(res.1, RIP) == pc
    ensures forall r :: r != RSP && r != RIP ==> ReadUnsigned(res.1, r) == ReadUnsigned(rf, r)
    ensures RSP !in rf.writable ==> res.1 == rf
    ensures forall j :: 0 <= j < |ArgumentRegisters| ==> ReadUnsigned(res.1, ArgumentRegisters[j]) == ReadUnsigned(rf, ArgumentRegisters[j])
  {
    RoleTable();
    var spReg := RegisterForRole(SP).value;
    var pcReg := RegisterForRole(PC).value;
    match WriteUnsigned(rf, spReg, sp)
    case None => (false, rf)
    case Some(rf1) =>
      match WriteUnsigned(rf1, pcReg, pc)
      case None => (false, rf1)
      case Some(rf2) => (true, rf2)
  }

  /** The arguments fit the register-only call path and every write it makes
      would succeed. */
  predicate SetupCanSucceed(t: Inferior, sp: u64, args: seq<u64>)
  {
    && t.regs.Some?
    && |args| <= 6
    && (forall j :: 0 <= j < |args| ==> ArgumentRegisters[j] in t.regs.value.writable)
    && WritableRange(t.mem, CallStack(sp), 8)
    && RSP in t.regs.value.writable
    && RIP in t.regs.value.writable
  }

  /** Prepare `t` to call `funcAddr` with `args`, returning to `returnAddr`. */
  function PrepareTrivialCall(t: Inferior, sp: u64, funcAddr: u64, returnAddr: u64, args: seq<u64>): (res: CallResult)
    ensures |args| > 6 ==> !res.ok && res.thread == t
    ensures t.regs.None? ==> !res.ok && res.thread == t
    ensures res.ok <==> SetupCanSucceed(t, sp, args)
    ensures res.ok ==> res.thread.regs.Some?
    ensures res.ok ==> forall j :: 0 <= j < |args| ==>
      ReadUnsigned(res.thread.regs.value, ArgumentRegisters[j]) == args[j]
    ensures res.ok ==> ReadUnsigned(res.thread.regs.value, RSP) == CallStack(sp)
    ensures res.ok ==> ReadUnsigned(res.thread.regs.value, RIP) == funcAddr
    ensures res.ok ==> ReadBytes(res.thread.mem, CallStack(sp), 8) == Some(Word(returnAddr))
  {
    match t.regs
    case None => CallResult(false, t)
    case Some(rf) =>
      if |args| > 6 then CallResult(false, t)
      else
        var (argsOk, rf1) := WriteArguments(rf, args, 0);
        if !argsOk then
          assert !SetupCanSucceed(t, sp, args);
          CallResult(false, t.(regs := Some(rf1)))
        else
          var newSp := CallStack(sp);
          match WritePointer(t.mem, newSp, returnAddr)
          case None =>
            assert !SetupCanSucceed(t, sp, args);
            CallResult(false, t.(regs := Some(rf1)))
          case Some(mem') =>
            ReadBackPointer(t.mem, newSp, returnAddr);
            var (frameOk, rf2) := WriteFrameRegisters(rf1, newSp, funcAddr);
            assert frameOk <==> SetupCanSucceed(t, sp, args);
            CallResult(frameOk, Inferior(Some(rf2), mem'))
  }

  /** The stack pointer and program counter are written only once the
      return address is on the stack: if that store fails, both keep their
      old values and memory is untouched, while the argument registers
      written before it keep the arguments. */
  lemma FrameWrittenAfterReturnAddress(t: Inferior, sp: u64, funcAddr: u64, returnAddr: u64, args: seq<u64>)
    requires t.regs.Some? && |args| <= 6
    requires !WritableRange(t.mem, CallStack(sp), 8)
    ensures var res := PrepareTrivialCall(t, sp, funcAddr, returnAddr, args);
      && !res.ok
      && res.thread.mem == t.mem
      && res.thread.regs.Some?
      && ReadUnsigned(res.thread.regs.value, RSP) == ReadUnsigned(t.regs.value, RSP)
      && ReadUnsigned(res.thread.regs.value, RIP) == ReadUnsigned(t.regs.value, RIP)
      && ((forall j :: 0 <= j < |args| ==> ArgumentRegisters[j] in t.regs.value.writable) ==>
            forall j :: 0 <= j < |args| ==> ReadUnsigned(res.thread.regs.value, ArgumentRegisters[j]) == args[j])
  {
    var rf := t.regs.value;
    var (argsOk, rf1) := WriteArguments(rf, args, 0);
    assert RSP !in ArgumentRegisters[0..|args|] && RIP !in ArgumentRegisters[0..|args|];
  }

  /** A successful setup changes no register other than the argument
      registers it used, the stack pointer and the program counter. */
  lemma SetupPreservesOtherRegisters(t: Inferior, sp: u64, funcAddr: u64, returnAddr: u64, args: seq<u64>, r: Reg)
    requires forall j :: 0 <= j < |args| && j < |ArgumentRegisters| ==> ArgumentRegisters[j] != r
    requires r != RSP && r != RIP
    ensures var res := PrepareTrivialCall(t, sp, funcAddr, returnAddr, args);
      res.ok ==> ReadUnsigned(res.thread.regs.value, r) == ReadUnsigned(t.regs.value, r)
  {
    if PrepareTrivialCall(t, sp, funcAddr, returnAddr, args).ok {
      assert r !in ArgumentRegisters[..|args|];
    }
  }
}
