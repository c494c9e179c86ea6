/** A call with eight `unsigned int` arguments, stopped at the callee's
    entry with the stack pointer at 0x1000. The caller passed the seventh
    and eighth arguments, 1 and 2, on the stack, each in an eightbyte slot of
    its own: 1 at 0x1008, 2 at 0x1010. Moving the stack cursor by each
    argument's byte width reads the eighth argument from 0x100c, the upper
    half of the seventh argument's slot. */
module StackSlots {
  import opened Base
  import opened Registers
  import opened Machine
  import opened Arguments

  const U32: ArgType := ArgType(Some(32), IntegerArg(false))

  const EightInts: seq<ArgType> := [U32, U32, U32, U32, U32, U32, U32, U32]

  /** The sixteen stack bytes above the return address. */
  const Slots: seq<byte> := [1, 0, 0, 0, 0, 0, 0, 0, 2, 0, 0, 0, 0, 0, 0, 0]

  const SP: u64 := 0x1000

  /** Memory holding the two stack slots from 0x1008 on. */
  predicate HoldsSlots(m: Memory)
  {
    forall a :: 0x1008 <= a < 0x1018 ==> a in m.bytes && m.bytes[a] == Slots[a - 0x1008]
  }

  /** Four bytes of the slots, read. */
  lemma ReadFour(m: Memory, off: nat)
    requires HoldsSlots(m) && off <= 12
    ensures ReadBytes(m, 0x1008 + off, 4) == Some(Slots[off .. off + 4])
  {
    assert ReadableRange(m, 0x1008 + off, 4);
    var r := ReadBytes(m, 0x1008 + off, 4).value;
    forall i | 0 <= i < 4
      ensures r[i] == Slots[off .. off + 4][i]
    {
      assert m.bytes[0x1008 + off + i] == Slots[off + i];
    }
    assert r == Slots[off .. off + 4];
  }

  /** The thread at the callee's entry. */
  predicate AtEntry(t: Inferior)
  {
    t.regs.Some? && ReadUnsigned(t.regs.value, RSP) == SP && HoldsSlots(t.mem)
  }

  lemma AllRead()
    ensures forall i :: 0 <= i < |EightInts| ==> Eligible(EightInts[i])
    ensures forall k :: 0 <= k <= 8 ==> CountEligible(EightInts, k) == k
  {
    forall k | 0 <= k <= 8
      ensures CountEligible(EightInts, k) == k
    {
      EveryEligibleCount(EightInts, k);
    }
  }

  /** The seventh argument takes four bytes under the width rule. */
  lemma WidthOffsets()
    ensures StackBytes(EightInts, 6, ByWidth) == 0
    ensures StackBytes(EightInts, 7, ByWidth) == 4
    ensures SlotAddress(SP, EightInts, 6, ByWidth) == 0x1008
    ensures SlotAddress(SP, EightInts, 7, ByWidth) == 0x100c
  {
    AllRead();
    assert StackBytes(EightInts, 6, ByWidth) == 0 by {
      assert forall k :: 0 <= k <= 6 ==> StackBytes(EightInts, k, ByWidth) == 0 by {
        forall k | 0 <= k <= 6
          ensures StackBytes(EightInts, k, ByWidth) == 0
        {
          NoStackBefore(k);
        }
      }
    }
  }

  /** No stack argument precedes any of the first seven slots. */
  lemma {:induction false} NoStackBefore(k: nat)
    requires k <= 6
    ensures StackBytes(EightInts, k, ByWidth) == 0
    ensures StackBytes(EightInts, k, ByEightbyte) == 0
  {
    if k > 0 {
      NoStackBefore(k - 1);
      AllRead();
    }
  }

  /** Every stack argument of the call can be read, under either rule. */
  lemma Readable(t: Inferior, rule: StackRule)
    requires AtEntry(t)
    requires rule == ByWidth ==> SlotAddress(SP, EightInts, 7, rule) == 0x100c
    ensures StackReadable(t.mem, SP, EightInts, 8, rule)
  {
    AllRead();
    NoStackBefore(6);
    EightbyteStackBytes(EightInts, 7);
    ReadFour(t.mem, 0);
    ReadFour(t.mem, if rule == ByWidth then 4 else 8);
    assert SlotAddress(SP, EightInts, 6, rule) == 0x1008;
    assert SlotAddress(SP, EightInts, 7, rule) == if rule == ByWidth then 0x100c else 0x1010;
    forall k | 0 <= k < 8 && Eligible(EightInts[k]) && CountEligible(EightInts, k) >= 6
      ensures ReadableRange(t.mem, SlotAddress(SP, EightInts, k, rule), 4)
    {
      assert k == 6 || k == 7;
    }
  }

  lemma Extracts(t: Inferior, rule: StackRule)
    requires AtEntry(t)
    ensures GetArgumentValues(t, EightInts, rule).0
  {
  }

  /** The slots as the width rule describes them: the seventh argument
      from 0x1008, the eighth from 0x100c. */
  lemma WidthSlots(rf: RegisterFile, m: Memory)
    requires HoldsSlots(m)
    ensures ExpectedArgument(rf, m, SP, EightInts, 6, ByWidth) == Some(1)
    ensures ExpectedArgument(rf, m, SP, EightInts, 7, ByWidth) == Some(0)
  {
    WidthOffsets();
    SlotGroups(m);
    SlotValues();
    WidthArg(rf, m, 6, 0x1008, [1, 0, 0, 0]);
    WidthArg(rf, m, 7, 0x100c, [0, 0, 0, 0]);
  }

  /** Stack argument `j` under the width rule is the four bytes `bs` at
      its slot address `addr`. */
  lemma WidthArg(rf: RegisterFile, m: Memory, j: nat, addr: int, bs: seq<byte>)
    requires 6 <= j <= 7
    requires SlotAddress(SP, EightInts, j, ByWidth) == addr
    requires ReadBytes(m, addr, 4) == Some(bs)
    ensures ExpectedArgument(rf, m, SP, EightInts, j, ByWidth) == Some(DecodeLE(bs))
  {
    AllRead();
    StackArgumentAt(rf, m, SP, EightInts, j, ByWidth, addr, bs);
  }

  /** The little-endian values of the four-byte groups of the slots. */
  lemma SlotValues()
    ensures DecodeLE([1, 0, 0, 0]) == 1 && DecodeLE([0, 0, 0, 0]) == 0 && DecodeLE([2, 0, 0, 0]) == 2
  {
  }

  /** As written, the eighth argument reads as 0 although the caller passed 2. */
  lemma StackSlotsAsWritten(t: Inferior)
    requires AtEntry(t)
    ensures GetArgumentValues(t, EightInts, ByWidth).1[6] == Some(1)
    ensures GetArgumentValues(t, EightInts, ByWidth).1[7] == Some(0)
  {
    WidthOffsets();
    Readable(t, ByWidth);
    Extracts(t, ByWidth);
    GetArgumentValuesMatches(t, EightInts, 6, ByWidth);
    GetArgumentValuesMatches(t, EightInts, 7, ByWidth);
    WidthSlots(t.regs.value, t.mem);
  }

  /** The four-byte groups of the slots at 0x1008, 0x100c and 0x1010. */
  lemma SlotGroups(m: Memory)
    requires HoldsSlots(m)
    ensures ReadBytes(m, 0x1008, 4) == Some([1, 0, 0, 0])
    ensures ReadBytes(m, 0x100c, 4) == Some([0, 0, 0, 0])
    ensures ReadBytes(m, 0x1010, 4) == Some([2, 0, 0, 0])
  {
    ReadFour(m, 0);
    ReadFour(m, 4);
    ReadFour(m, 8);
    assert Slots[0 .. 4] == [1, 0, 0, 0] && Slots[4 .. 8] == [0, 0, 0, 0] && Slots[8 .. 12] == [2, 0, 0, 0];
  }

  /** With eightbyte slots both stack arguments read as passed. */
  lemma StackSlotsByEightbyte(t: Inferior)
    requires AtEntry(t)
    ensures GetArgumentValues(t, EightInts, ByEightbyte).1[6] == Some(1)
    ensures GetArgumentValues(t, EightInts, ByEightbyte).1[7] == Some(2)
  {
    Readable(t, ByEightbyte);
    Extracts(t, ByEightbyte);
    SlotGroups(t.mem);
    SlotValues();
    EightbyteArg(t, 6, [1, 0, 0, 0]);
    EightbyteArg(t, 7, [2, 0, 0, 0]);
  }

  /** Stack argument `j` under the eightbyte rule is the four bytes `bs` of
      its own slot. */
  lemma EightbyteArg(t: Inferior, j: nat, bs: seq<byte>)
    requires AtEntry(t) && 6 <= j <= 7
    requires GetArgumentValues(t, EightInts, ByEightbyte).0
    requires StackReadable(t.mem, SP, EightInts, 8, ByEightbyte)
    requires ReadBytes(t.mem, 0x1008 + 8 * (j - 6), 4) == Some(bs)
    ensures GetArgumentValues(t, EightInts, ByEightbyte).1[j] == Some(DecodeLE(bs))
  {
    EightbyteSlotAddress(j);
    AllRead();
    StackReadablePrefix(t.mem, SP, EightInts, j + 1, 8, ByEightbyte);
    EightbyteSlots(t, EightInts, j);
  }

  /** The eightbyte slots of the seventh and eighth arguments, 0x1008 and
      0x1010, need no wrap-around. */
  lemma EightbyteSlotAddress(j: nat)
    requires 6 <= j <= 7
    ensures (SP as int + 8 + 8 * (j - 6)) % TWO_TO_64 == 0x1008 + 8 * (j - 6)
  {
  }
}
