/** The call setup and the argument reader are inverse views of the same
    convention: what the setup writes for a call with at most six 64-bit
    integer or pointer arguments, the reader finds at the callee's entry. */
module CallRoundTrip {
  import opened Base
  import opened Registers
  import opened Machine
  import opened CallSetup
  import opened Arguments

  /** A 64-bit integer (of either signedness) or pointer slot. */
  predicate WordSlot(t: ArgType)
  {
    t.bitSize == Some(64) && t.kind != OtherArg
  }

  /** No slot of a call with at most six arguments is on the stack. */
  lemma NothingOnStack(mem: Memory, sp: u64, types: seq<ArgType>, j: nat, rule: StackRule)
    requires j <= |types| <= 6
    requires forall i :: 0 <= i < |types| ==> WordSlot(types[i])
    ensures StackReadable(mem, sp, types, j, rule)
  {
    forall k | 0 <= k < j
      ensures CountEligible(types, k) < 6
    {
      EveryEligibleCount(types, k);
    }
  }

  /** Slot `j` of a register-only call is argument register `j`, unchanged. */
  lemma RegisterSlot(rf: RegisterFile, mem: Memory, sp: u64, types: seq<ArgType>, j: nat, rule: StackRule)
    requires j < |types| <= 6
    requires forall i :: 0 <= i < |types| ==> WordSlot(types[i])
    ensures ExpectedArgument(rf, mem, sp, types, j, rule) == Some(ReadUnsigned(rf, ArgumentRegisters[j]))
  {
    EveryEligibleCount(types, j);
  }

  /** Reading the arguments back at the callee's entry, with 64-bit integer
      or pointer types, yields exactly the values the setup was given,
      however stack arguments would be advanced over. */
  lemma ArgumentsRoundTrip(t: Inferior, sp: u64, funcAddr: u64, returnAddr: u64, args: seq<u64>, types: seq<ArgType>, rule: StackRule)
    requires |types| == |args|
    requires forall i :: 0 <= i < |types| ==> WordSlot(types[i])
    ensures var res := PrepareTrivialCall(t, sp, funcAddr, returnAddr, args);
      var read := GetArgumentValues(res.thread, types, rule);
      res.ok ==> read.0 && read.1 == seq(|args|, i requires 0 <= i < |args| => Some(args[i]))
  {
    var res := PrepareTrivialCall(t, sp, funcAddr, returnAddr, args);
    if res.ok {
      ReadBackAfterSetup(res.thread, args, types, CallStack(sp), rule);
    }
  }

  /** The same, stated over the thread state the setup leaves behind. */
  lemma ReadBackAfterSetup(th: Inferior, args: seq<u64>, types: seq<ArgType>, newSp: u64, rule: StackRule)
    requires th.regs.Some? && |types| == |args| <= 6
    requires forall i :: 0 <= i < |types| ==> WordSlot(types[i])
    requires forall j :: 0 <= j < |args| ==> ReadUnsigned(th.regs.value, ArgumentRegisters[j]) == args[j]
    requires ReadUnsigned(th.regs.value, RSP) == newSp && newSp % 16 == 8
    ensures var read := GetArgumentValues(th, types, rule);
      && read.0
      && read.1 == seq(|args|, i requires 0 <= i < |args| => Some(args[i]))
  {
    var rf := th.regs.value;
    var read := GetArgumentValues(th, types, rule);
    assert read.0;
    forall j | 0 <= j < |args|
      ensures read.1[j] == Some(args[j])
    {
      NothingOnStack(th.mem, newSp, types, j + 1, rule);
      GetArgumentValuesMatches(th, types, j, rule);
      RegisterSlot(rf, th.mem, newSp, types, j, rule);
    }
  }
}
