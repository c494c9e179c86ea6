/** Aggregates returned by value, worked through the main loop: what the
    loop recovers for common layouts, and how locating shared-register fields
    by the running counter differs from locating them by offset when a field
    follows padding. */
module ReturnExamples {
  import opened Base
  import opened Registers
  import opened Machine
  import opened Types
  import opened SimpleReturn
  import opened AggregateReturn
  import opened NestedExtract

  const I64: CType := CType(Some(8), Int(true), false, true)
  const I32: CType := CType(Some(4), Int(true), false, true)
  const I8: CType := CType(Some(1), Int(true), false, true)
  const F32: CType := CType(Some(4), Float(false), false, true)
  const F64: CType := CType(Some(8), Float(false), false, true)
  const F128: CType := CType(Some(16), Float(false), false, true)

  /** A C struct (not Swift, passable in registers) with the given size and fields. */
  function Struct(size: nat, fields: seq<Field>): CType
  {
    CType(Some(size), Record(fields), false, true)
  }

  /** The leaves of a struct of primitive fields, at their byte offsets. */
  function AtOffsets(fs: seq<Field>): (r: seq<Leaf>)
    ensures |r| == |fs|
    ensures forall k :: 0 <= k < |fs| ==> r[k] == Leaf(fs[k].bitOffset / 8, fs[k].ty)
  {
    if fs == [] then [] else [Leaf(fs[0].bitOffset / 8, fs[0].ty)] + AtOffsets(fs[1..])
  }

  lemma FlattenStruct(ty: CType)
    requires ty.kind.Record?
    requires forall k :: 0 <= k < |ty.kind.fields| ==> IsLeafType(ty.kind.fields[k].ty) && Width(ty.kind.fields[k].ty) > 0
    ensures FlattenAggregateType(ty, 0, 0) == Some(AtOffsets(ty.kind.fields))
  {
    FlattenPrimitiveFields(ty, 0, 0);
    assert PrimitiveLeaves(ty, 0, 0) == AtOffsets(ty.kind.fields);
  }

  /** The copy of a field from a register that holds it. */
  lemma CopyFieldIs(rf: RegisterFile, src: Source, at: nat, w: nat, buf: seq<byte>, out: seq<byte>)
    requires src.from + w <= |RegisterData(rf, src.reg)|
    requires Splice(buf, at, RegisterData(rf, src.reg)[src.from .. src.from + w]) == out
    ensures CopyField(rf, Some(src), at, w, buf) == Some(out)
  {
  }

  /** One step of the loop over a field whose copy succeeds with `out`. */
  lemma CopyUnfold(rf: RegisterFile, leaves: seq<Leaf>, swift: bool, rule: GprRule, idx: nat, acc: Acc, src: Source, ib: nat, fp: nat, out: seq<byte>)
    requires idx < |leaves| && GoodLeaves(leaves)
    requires MainStep(leaves, idx, swift, acc.intBytes, acc.fpBytes, rule) == Copy(Some(src), ib, fp)
    requires CopyField(rf, Some(src), leaves[idx].offset, Width(leaves[idx].ty), acc.buffer) == Some(out)
    ensures ClassifyLeaves(rf, leaves, swift, rule, idx, acc) == ClassifyLeaves(rf, leaves, swift, rule, idx + 1, Acc(ib, fp, acc.isMemory, out))
  {
  }

  /** One step of the loop over a field copied from a register, the buffer
      becoming `out`. */
  lemma CopyStepTo(rf: RegisterFile, leaves: seq<Leaf>, swift: bool, rule: GprRule, idx: nat, acc: Acc, src: Source, ib: nat, fp: nat, out: seq<byte>)
    requires idx < |leaves| && GoodLeaves(leaves)
    requires MainStep(leaves, idx, swift, acc.intBytes, acc.fpBytes, rule) == Copy(Some(src), ib, fp)
    requires src.from + Width(leaves[idx].ty) <= |RegisterData(rf, src.reg)|
    requires Splice(acc.buffer, leaves[idx].offset, RegisterData(rf, src.reg)[src.from .. src.from + Width(leaves[idx].ty)]) == out
    ensures ClassifyLeaves(rf, leaves, swift, rule, idx, acc) == ClassifyLeaves(rf, leaves, swift, rule, idx + 1, Acc(ib, fp, acc.isMemory, out))
  {
    CopyFieldIs(rf, src, leaves[idx].offset, Width(leaves[idx].ty), acc.buffer, out);
    CopyUnfold(rf, leaves, swift, rule, idx, acc, src, ib, fp, out);
  }

  /** The loop stops after the last field. */
  lemma Done(rf: RegisterFile, leaves: seq<Leaf>, swift: bool, rule: GprRule, acc: Acc)
    requires GoodLeaves(leaves)
    ensures ClassifyLeaves(rf, leaves, swift, rule, |leaves|, acc) == Finished(acc)
  {
  }

  /** Writing at the start of a zeroed buffer. */
  lemma SpliceAtStart(bytes: seq<byte>, n: nat)
    ensures Splice(Zeros(|bytes| + n), 0, bytes) == bytes + Zeros(n)
  {
    assert Zeros(|bytes| + n)[|bytes|..] == Zeros(n);
  }

  /** Writing into the zeroed tail of a buffer, `gap` bytes past its prefix. */
  lemma SpliceInZeros(prefix: seq<byte>, gap: nat, bytes: seq<byte>, n: nat)
    requires gap + |bytes| <= n
    ensures Splice(prefix + Zeros(n), |prefix| + gap, bytes) == prefix + Zeros(gap) + bytes + Zeros(n - gap - |bytes|)
  {
    var b := prefix + Zeros(n);
    assert b[..|prefix| + gap] == prefix + Zeros(gap);
    assert b[|prefix| + gap + |bytes|..] == Zeros(n - gap - |bytes|);
  }

  /** The value recovered for a struct of primitive fields that fits, from
      the loop's outcome on its fields. */
  lemma ImplOfStruct(rf: RegisterFile, mem: Memory, ty: CType, leaves: seq<Leaf>, out: Outcome)
    requires ty.kind.Record? && ty.regPassable && ty.byteSize.Some? && ty.byteSize.value <= Capacity(ty)
    requires forall k :: 0 <= k < |ty.kind.fields| ==> IsLeafType(ty.kind.fields[k].ty) && Width(ty.kind.fields[k].ty) > 0
    requires AtOffsets(ty.kind.fields) == leaves
    requires ClassifyLeaves(rf, leaves, ty.swift, ByCounter, 0, Start(leaves, Capacity(ty))) == out
    ensures GetReturnValueObjectImpl(Inferior(Some(rf), mem), ty) ==
      match out
      case Abandoned => None
      case Finished(acc) => if acc.isMemory then MemoryFallback(rf, ty) else Some(Bytes(acc.buffer))
  {
    FlattenStruct(ty);
    assert Admitted(ty);
    assert Classify(rf, ty, ByCounter) == out;
  }

  /** The same for the recovery that locates fields by offset. */
  lemma ByOffsetOfStruct(rf: RegisterFile, mem: Memory, ty: CType, leaves: seq<Leaf>, out: Outcome)
    requires ty.kind.Record? && !ty.swift && ty.regPassable && ty.byteSize.Some? && ty.byteSize.value <= 16
    requires forall k :: 0 <= k < |ty.kind.fields| ==> IsLeafType(ty.kind.fields[k].ty) && Width(ty.kind.fields[k].ty) > 0
    requires AtOffsets(ty.kind.fields) == leaves
    requires ClassifyLeaves(rf, leaves, false, ByOffset, 0, Start(leaves, 16)) == out
    ensures GetReturnValueByOffset(Inferior(Some(rf), mem), ty) ==
      match out
      case Abandoned => None
      case Finished(acc) => if acc.isMemory then MemoryFallback(rf, ty) else Some(Bytes(acc.buffer))
  {
    FlattenStruct(ty);
    assert Admitted(ty);
    assert Classify(rf, ty, ByOffset) == out;
  }

  // struct { long a; long b; }

  const LongLong: seq<Leaf> := [Leaf(0, I64), Leaf(8, I64)]

  /** `struct { long a; long b; }` comes back as rax followed by rdx. */
  lemma PairOfLongs(rf: RegisterFile, mem: Memory)
    requires RAX in rf.gpr && RDX in rf.gpr
    ensures GetReturnValueObjectImpl(Inferior(Some(rf), mem), Struct(16, [Field(0, I64), Field(64, I64)]))
      == Some(Bytes(Word(rf.gpr[RAX]) + Word(rf.gpr[RDX])))
  {
    var ty := Struct(16, [Field(0, I64), Field(64, I64)]);
    assert AtOffsets(ty.kind.fields) == LongLong;
    PairOfLongsLoop(rf);
    ImplOfStruct(rf, mem, ty, LongLong, Finished(Acc(16, 0, false, Word(rf.gpr[RAX]) + Word(rf.gpr[RDX]))));
  }

  lemma PairOfLongsLoop(rf: RegisterFile)
    requires RAX in rf.gpr && RDX in rf.gpr
    ensures ClassifyLeaves(rf, LongLong, false, ByCounter, 0, Start(LongLong, 16))
         == Finished(Acc(16, 0, false, Word(rf.gpr[RAX]) + Word(rf.gpr[RDX])))
  {
    PairOfLongsFirst(rf);
    PairOfLongsSecond(rf);
  }

  lemma PairOfLongsFirst(rf: RegisterFile)
    requires RAX in rf.gpr
    ensures ClassifyLeaves(rf, LongLong, false, ByCounter, 0, Start(LongLong, 16))
         == ClassifyLeaves(rf, LongLong, false, ByCounter, 1, Acc(8, 0, false, Word(rf.gpr[RAX]) + Zeros(8)))
  {
    var w := Word(rf.gpr[RAX]);
    assert RegisterData(rf, RAX)[0..8] == w;
    SpliceAtStart(w, 8);
    assert Width(I64) == 8;
    assert Start(LongLong, 16) == Acc(0, 0, false, Zeros(16));
    assert MainStep(LongLong, 0, false, 0, 0, ByCounter) == Copy(Some(Source(RAX, 0)), 8, 0);
    CopyStepTo(rf, LongLong, false, ByCounter, 0, Start(LongLong, 16), Source(RAX, 0), 8, 0, w + Zeros(8));
  }

  lemma PairOfLongsSecond(rf: RegisterFile)
    requires RAX in rf.gpr && RDX in rf.gpr
    ensures ClassifyLeaves(rf, LongLong, false, ByCounter, 1, Acc(8, 0, false, Word(rf.gpr[RAX]) + Zeros(8)))
         == Finished(Acc(16, 0, false, Word(rf.gpr[RAX]) + Word(rf.gpr[RDX])))
  {
    var wa, wd := Word(rf.gpr[RAX]), Word(rf.gpr[RDX]);
    assert RegisterData(rf, RDX)[0..8] == wd;
    SpliceInZeros(wa, 0, wd, 8);
    assert wa + Zeros(0) + wd + Zeros(0) == wa + wd;
    assert Width(I64) == 8;
    assert MainStep(LongLong, 1, false, 8, 0, ByCounter) == Copy(Some(Source(RDX, 0)), 16, 0);
    CopyStepTo(rf, LongLong, false, ByCounter, 1, Acc(8, 0, false, wa + Zeros(8)), Source(RDX, 0), 16, 0, wa + wd);
    Done(rf, LongLong, false, ByCounter, Acc(16, 0, false, wa + wd));
  }

  // struct { float a; float b; }

  const FloatFloat: seq<Leaf> := [Leaf(0, F32), Leaf(4, F32)]

  /** `struct { float a; float b; }` comes back as the low eight bytes of
      xmm0: the second float from the upper half of that register's first
      eightbyte. */
  lemma PairOfFloats(rf: RegisterFile, mem: Memory)
    requires XMM0 in rf.vec
    ensures GetReturnValueObjectImpl(Inferior(Some(rf), mem), Struct(8, [Field(0, F32), Field(32, F32)]))
      == Some(Bytes(rf.vec[XMM0][..8] + Zeros(8)))
  {
    var ty := Struct(8, [Field(0, F32), Field(32, F32)]);
    assert AtOffsets(ty.kind.fields) == FloatFloat;
    PairOfFloatsLoop(rf);
    ImplOfStruct(rf, mem, ty, FloatFloat, Finished(Acc(0, 8, false, rf.vec[XMM0][..8] + Zeros(8))));
  }

  lemma PairOfFloatsLoop(rf: RegisterFile)
    requires XMM0 in rf.vec
    ensures ClassifyLeaves(rf, FloatFloat, false, ByCounter, 0, Start(FloatFloat, 16))
         == Finished(Acc(0, 8, false, rf.vec[XMM0][..8] + Zeros(8)))
  {
    PairOfFloatsFirst(rf);
    PairOfFloatsSecond(rf);
  }

  lemma PairOfFloatsFirst(rf: RegisterFile)
    requires XMM0 in rf.vec
    ensures ClassifyLeaves(rf, FloatFloat, false, ByCounter, 0, Start(FloatFloat, 16))
         == ClassifyLeaves(rf, FloatFloat, false, ByCounter, 1, Acc(0, 4, false, rf.vec[XMM0][0..4] + Zeros(12)))
  {
    assert MainStep(FloatFloat, 0, false, 0, 0, ByCounter) == Copy(Some(Source(XMM0, 0)), 0, 4);
    SpliceAtStart(rf.vec[XMM0][0..4], 12);
    assert RegisterData(rf, XMM0) == rf.vec[XMM0] && Width(F32) == 4;
    assert Start(FloatFloat, 16) == Acc(0, 0, false, Zeros(16));
    CopyStepTo(rf, FloatFloat, false, ByCounter, 0, Start(FloatFloat, 16), Source(XMM0, 0), 0, 4, rf.vec[XMM0][0..4] + Zeros(12));
  }

  lemma PairOfFloatsSecond(rf: RegisterFile)
    requires XMM0 in rf.vec
    ensures ClassifyLeaves(rf, FloatFloat, false, ByCounter, 1, Acc(0, 4, false, rf.vec[XMM0][0..4] + Zeros(12)))
         == Finished(Acc(0, 8, false, rf.vec[XMM0][..8] + Zeros(8)))
  {
    var x := rf.vec[XMM0];
    assert MainStep(FloatFloat, 1, false, 0, 4, ByCounter) == Copy(Some(Source(XMM0, 4)), 0, 8);
    SpliceInZeros(x[0..4], 0, x[4..8], 12);
    assert x[0..4] + Zeros(0) + x[4..8] + Zeros(8) == x[..8] + Zeros(8);
    assert RegisterData(rf, XMM0) == x && Width(F32) == 4;
    CopyStepTo(rf, FloatFloat, false, ByCounter, 1, Acc(0, 4, false, x[0..4] + Zeros(12)), Source(XMM0, 4), 0, 8, x[..8] + Zeros(8));
    Done(rf, FloatFloat, false, ByCounter, Acc(0, 8, false, x[..8] + Zeros(8)));
  }

  // struct { double d; long l; }

  const DoubleLong: seq<Leaf> := [Leaf(0, F64), Leaf(8, I64)]

  /** `struct { double d; long l; }`: the double from xmm0, the integer from
      rax, each at its own offset. */
  lemma DoubleThenLong(rf: RegisterFile, mem: Memory)
    requires XMM0 in rf.vec && RAX in rf.gpr
    ensures GetReturnValueObjectImpl(Inferior(Some(rf), mem), Struct(16, [Field(0, F64), Field(64, I64)]))
      == Some(Bytes(rf.vec[XMM0][..8] + Word(rf.gpr[RAX])))
  {
    var ty := Struct(16, [Field(0, F64), Field(64, I64)]);
    assert AtOffsets(ty.kind.fields) == DoubleLong;
    DoubleThenLongLoop(rf);
    ImplOfStruct(rf, mem, ty, DoubleLong, Finished(Acc(8, 8, false, rf.vec[XMM0][..8] + Word(rf.gpr[RAX]))));
  }

  lemma DoubleThenLongLoop(rf: RegisterFile)
    requires XMM0 in rf.vec && RAX in rf.gpr
    ensures ClassifyLeaves(rf, DoubleLong, false, ByCounter, 0, Start(DoubleLong, 16))
         == Finished(Acc(8, 8, false, rf.vec[XMM0][..8] + Word(rf.gpr[RAX])))
  {
    DoubleThenLongFirst(rf);
    DoubleThenLongSecond(rf);
  }

  lemma DoubleThenLongFirst(rf: RegisterFile)
    requires XMM0 in rf.vec
    ensures ClassifyLeaves(rf, DoubleLong, false, ByCounter, 0, Start(DoubleLong, 16))
         == ClassifyLeaves(rf, DoubleLong, false, ByCounter, 1, Acc(0, 8, false, rf.vec[XMM0][0..8] + Zeros(8)))
  {
    assert MainStep(DoubleLong, 0, false, 0, 0, ByCounter) == Copy(Some(Source(XMM0, 0)), 0, 8);
    SpliceAtStart(rf.vec[XMM0][0..8], 8);
    assert RegisterData(rf, XMM0) == rf.vec[XMM0] && Width(F64) == 8;
    assert Start(DoubleLong, 16) == Acc(0, 0, false, Zeros(16));
    CopyStepTo(rf, DoubleLong, false, ByCounter, 0, Start(DoubleLong, 16), Source(XMM0, 0), 0, 8, rf.vec[XMM0][0..8] + Zeros(8));
  }

  lemma DoubleThenLongSecond(rf: RegisterFile)
    requires XMM0 in rf.vec && RAX in rf.gpr
    ensures ClassifyLeaves(rf, DoubleLong, false, ByCounter, 1, Acc(0, 8, false, rf.vec[XMM0][0..8] + Zeros(8)))
         == Finished(Acc(8, 8, false, rf.vec[XMM0][..8] + Word(rf.gpr[RAX])))
  {
    var x, w := rf.vec[XMM0], Word(rf.gpr[RAX]);
    assert RegisterData(rf, RAX)[0..8] == w;
    SpliceInZeros(x[0..8], 0, w, 8);
    assert x[0..8] + Zeros(0) + w + Zeros(0) == x[..8] + w;
    assert Width(I64) == 8;
    assert MainStep(DoubleLong, 1, false, 0, 8, ByCounter) == Copy(Some(Source(RAX, 0)), 8, 8);
    CopyStepTo(rf, DoubleLong, false, ByCounter, 1, Acc(0, 8, false, x[0..8] + Zeros(8)), Source(RAX, 0), 8, 8, x[..8] + w);
    Done(rf, DoubleLong, false, ByCounter, Acc(8, 8, false, x[..8] + w));
  }

  /** An aggregate holding a long double lives in memory: its address is
      taken from rax. */
  lemma LongDoubleInMemory(rf: RegisterFile, mem: Memory)
    ensures GetReturnValueObjectImpl(Inferior(Some(rf), mem), Struct(16, [Field(0, F128)]))
      == Some(MemoryAt(ReadUnsigned(rf, RAX)))
  {
    var leaves := [Leaf(0, F128)];
    ImplOfStruct(rf, mem, Struct(16, [Field(0, F128)]), leaves, Finished(Acc(0, 0, true, Zeros(16))));
  }

  // struct { char c; float f; } __attribute__((packed))

  const CharFloat: seq<Leaf> := [Leaf(0, I8), Leaf(1, F32)]

  /** A float at an offset that is not a multiple of four (a packed struct)
      puts the aggregate in memory, after the loop has looked at the rest. */
  lemma MisalignedFloatInMemory(rf: RegisterFile, mem: Memory)
    requires RAX in rf.gpr
    ensures GetReturnValueObjectImpl(Inferior(Some(rf), mem), Struct(5, [Field(0, I8), Field(8, F32)]))
      == Some(MemoryAt(rf.gpr[RAX]))
  {
    var ty := Struct(5, [Field(0, I8), Field(8, F32)]);
    assert AtOffsets(ty.kind.fields) == CharFloat;
    MisalignedFloatLoop(rf);
    ImplOfStruct(rf, mem, ty, CharFloat, Finished(Acc(1, 0, true, Word(rf.gpr[RAX])[0..1] + Zeros(15))));
  }

  lemma MisalignedFloatLoop(rf: RegisterFile)
    requires RAX in rf.gpr
    ensures ClassifyLeaves(rf, CharFloat, false, ByCounter, 0, Start(CharFloat, 16))
         == Finished(Acc(1, 0, true, Word(rf.gpr[RAX])[0..1] + Zeros(15)))
  {
    MisalignedFloatFirst(rf);
    MisalignedFloatSecond(Word(rf.gpr[RAX])[0..1] + Zeros(15), rf);
  }

  lemma MisalignedFloatSecond(buf: seq<byte>, rf: RegisterFile)
    ensures ClassifyLeaves(rf, CharFloat, false, ByCounter, 1, Acc(1, 0, false, buf)) == Finished(Acc(1, 0, true, buf))
  {
    assert MainStep(CharFloat, 1, false, 1, 0, ByCounter) == SkipInMemory;
  }

  lemma MisalignedFloatFirst(rf: RegisterFile)
    requires RAX in rf.gpr
    ensures ClassifyLeaves(rf, CharFloat, false, ByCounter, 0, Start(CharFloat, 16))
         == ClassifyLeaves(rf, CharFloat, false, ByCounter, 1, Acc(1, 0, false, Word(rf.gpr[RAX])[0..1] + Zeros(15)))
  {
    var w := Word(rf.gpr[RAX]);
    SpliceAtStart(w[0..1], 15);
    assert RegisterData(rf, RAX)[0..1] == w[0..1] && Width(I8) == 1;
    assert Start(CharFloat, 16) == Acc(0, 0, false, Zeros(16));
    assert MainStep(CharFloat, 0, false, 0, 0, ByCounter) == Copy(Some(Source(RAX, 0)), 1, 0);
    CopyStepTo(rf, CharFloat, false, ByCounter, 0, Start(CharFloat, 16), Source(RAX, 0), 1, 0, w[0..1] + Zeros(15));
  }

  // a struct whose only field, a long, sits at offset 8

  const LateLong: seq<Leaf> := [Leaf(8, I64)]

  /** The counters start at the first field's offset, skipping the eight
      bytes before it: the long is the second eightbyte, taken from rdx and
      placed in the second half of the buffer. */
  lemma FirstFieldAtOffset(rf: RegisterFile, mem: Memory)
    requires RDX in rf.gpr
    ensures GetReturnValueObjectImpl(Inferior(Some(rf), mem), Struct(16, [Field(64, I64)]))
      == Some(Bytes(Zeros(8) + Word(rf.gpr[RDX])))
  {
    var ty := Struct(16, [Field(64, I64)]);
    assert AtOffsets(ty.kind.fields) == LateLong;
    var wd := Word(rf.gpr[RDX]);
    assert RegisterData(rf, RDX)[0..8] == wd;
    SpliceInZeros([], 8, wd, 16);
    assert [] + Zeros(16) == Zeros(16);
    assert [] + Zeros(8) + wd + Zeros(0) == Zeros(8) + wd;
    assert Width(I64) == 8;
    assert Start(LateLong, 16) == Acc(8, 8, false, Zeros(16));
    assert MainStep(LateLong, 0, false, 8, 8, ByCounter) == Copy(Some(Source(RDX, 0)), 16, 8);
    CopyStepTo(rf, LateLong, false, ByCounter, 0, Start(LateLong, 16), Source(RDX, 0), 16, 8, Zeros(8) + wd);
    Done(rf, LateLong, false, ByCounter, Acc(16, 8, false, Zeros(8) + wd));
    ImplOfStruct(rf, mem, ty, LateLong, Finished(Acc(16, 8, false, Zeros(8) + wd)));
  }

  /** Three longs exceed the sixteen bytes of rax:rdx: a C function returns
      the address of the result in rax. */
  lemma ThreeLongsInMemory(rf: RegisterFile, mem: Memory)
    ensures GetReturnValueObjectImpl(Inferior(Some(rf), mem), Struct(24, [Field(0, I64), Field(64, I64), Field(128, I64)]))
      == Some(MemoryAt(ReadUnsigned(rf, RAX)))
  {
  }

  // struct { Int a, b, c } in Swift

  const S64: CType := CType(Some(8), Int(true), true, true)

  const SwiftInts: seq<Leaf> := [Leaf(0, S64), Leaf(8, S64), Leaf(16, S64)]

  /** The Swift convention has 32 bytes of integer registers: three Swift
      integers come back in rax, rdx and rcx. */
  lemma ThreeSwiftInts(rf: RegisterFile, mem: Memory)
    requires RAX in rf.gpr && RDX in rf.gpr && RCX in rf.gpr
    ensures GetReturnValueObjectImpl(Inferior(Some(rf), mem), CType(Some(24), Record([Field(0, S64), Field(64, S64), Field(128, S64)]), true, true))
      == Some(Bytes(Word(rf.gpr[RAX]) + Word(rf.gpr[RDX]) + Word(rf.gpr[RCX]) + Zeros(8)))
  {
    var ty := CType(Some(24), Record([Field(0, S64), Field(64, S64), Field(128, S64)]), true, true);
    assert AtOffsets(ty.kind.fields) == SwiftInts;
    SwiftLoop(rf);
    var a3 := Acc(24, 0, false, Word(rf.gpr[RAX]) + Word(rf.gpr[RDX]) + Word(rf.gpr[RCX]) + Zeros(8));
    ImplOfStruct(rf, mem, ty, SwiftInts, Finished(a3));
  }

  lemma SwiftLoop(rf: RegisterFile)
    requires RAX in rf.gpr && RDX in rf.gpr && RCX in rf.gpr
    ensures ClassifyLeaves(rf, SwiftInts, true, ByCounter, 0, Start(SwiftInts, 32))
         == Finished(Acc(24, 0, false, Word(rf.gpr[RAX]) + Word(rf.gpr[RDX]) + Word(rf.gpr[RCX]) + Zeros(8)))
  {
    SwiftFirst(rf);
    SwiftRest(rf, Word(rf.gpr[RAX]));
  }

  lemma SwiftRest(rf: RegisterFile, wa: seq<byte>)
    requires |wa| == 8 && RDX in rf.gpr && RCX in rf.gpr
    ensures ClassifyLeaves(rf, SwiftInts, true, ByCounter, 1, Acc(8, 0, false, wa + Zeros(24)))
         == Finished(Acc(24, 0, false, wa + Word(rf.gpr[RDX]) + Word(rf.gpr[RCX]) + Zeros(8)))
  {
    SwiftSecond(rf, wa);
    SwiftLast(rf, wa + Word(rf.gpr[RDX]));
  }

  lemma SwiftLast(rf: RegisterFile, wad: seq<byte>)
    requires |wad| == 16 && RCX in rf.gpr
    ensures ClassifyLeaves(rf, SwiftInts, true, ByCounter, 2, Acc(16, 0, false, wad + Zeros(16)))
         == Finished(Acc(24, 0, false, wad + Word(rf.gpr[RCX]) + Zeros(8)))
  {
    SwiftThird(rf, wad);
    Done(rf, SwiftInts, true, ByCounter, Acc(24, 0, false, wad + Word(rf.gpr[RCX]) + Zeros(8)));
  }

  lemma SwiftFirst(rf: RegisterFile)
    requires RAX in rf.gpr
    ensures ClassifyLeaves(rf, SwiftInts, true, ByCounter, 0, Start(SwiftInts, 32))
         == ClassifyLeaves(rf, SwiftInts, true, ByCounter, 1, Acc(8, 0, false, Word(rf.gpr[RAX]) + Zeros(24)))
  {
    var w := Word(rf.gpr[RAX]);
    assert RegisterData(rf, RAX)[0..8] == w;
    SpliceAtStart(w, 24);
    assert Width(S64) == 8;
    assert Start(SwiftInts, 32) == Acc(0, 0, false, Zeros(32));
    assert MainStep(SwiftInts, 0, true, 0, 0, ByCounter) == Copy(Some(Source(RAX, 0)), 8, 0);
    CopyStepTo(rf, SwiftInts, true, ByCounter, 0, Start(SwiftInts, 32), Source(RAX, 0), 8, 0, w + Zeros(24));
  }

  lemma SwiftSecond(rf: RegisterFile, wa: seq<byte>)
    requires |wa| == 8 && RDX in rf.gpr
    ensures ClassifyLeaves(rf, SwiftInts, true, ByCounter, 1, Acc(8, 0, false, wa + Zeros(24)))
         == ClassifyLeaves(rf, SwiftInts, true, ByCounter, 2, Acc(16, 0, false, wa + Word(rf.gpr[RDX]) + Zeros(16)))
  {
    var w := Word(rf.gpr[RDX]);
    assert RegisterData(rf, RDX)[0..8] == w;
    SpliceInZeros(wa, 0, w, 24);
    assert wa + Zeros(0) + w == wa + w;
    assert Width(S64) == 8;
    assert MainStep(SwiftInts, 1, true, 8, 0, ByCounter) == Copy(Some(Source(RDX, 0)), 16, 0);
    CopyStepTo(rf, SwiftInts, true, ByCounter, 1, Acc(8, 0, false, wa + Zeros(24)), Source(RDX, 0), 16, 0, wa + w + Zeros(16));
  }

  lemma SwiftThird(rf: RegisterFile, wad: seq<byte>)
    requires |wad| == 16 && RCX in rf.gpr
    ensures ClassifyLeaves(rf, SwiftInts, true, ByCounter, 2, Acc(16, 0, false, wad + Zeros(16)))
         == ClassifyLeaves(rf, SwiftInts, true, ByCounter, 3, Acc(24, 0, false, wad + Word(rf.gpr[RCX]) + Zeros(8)))
  {
    var w := Word(rf.gpr[RCX]);
    assert RegisterData(rf, RCX)[0..8] == w;
    SpliceInZeros(wad, 0, w, 16);
    assert wad + Zeros(0) + w == wad + w;
    assert Width(S64) == 8;
    assert MainStep(SwiftInts, 2, true, 16, 0, ByCounter) == Copy(Some(Source(RCX, 0)), 24, 0);
    CopyStepTo(rf, SwiftInts, true, ByCounter, 2, Acc(16, 0, false, wad + Zeros(16)), Source(RCX, 0), 24, 0, wad + w + Zeros(8));
  }

  // struct { char c; int i; }

  /** `struct { char c; int i; }`: three bytes of padding precede `i`, which
      the calling convention leaves in bytes 4..8 of rax. */
  const CharThenInt: CType := Struct(8, [Field(0, I8), Field(32, I32)])

  const CharInt: seq<Leaf> := [Leaf(0, I8), Leaf(4, I32)]

  lemma CharThenIntFirst(rf: RegisterFile, rule: GprRule)
    requires RAX in rf.gpr
    ensures ClassifyLeaves(rf, CharInt, false, rule, 0, Start(CharInt, 16))
         == ClassifyLeaves(rf, CharInt, false, rule, 1, Acc(1, 0, false, Word(rf.gpr[RAX])[0..1] + Zeros(15)))
  {
    var w := Word(rf.gpr[RAX]);
    SpliceAtStart(w[0..1], 15);
    assert RegisterData(rf, RAX)[0..1] == w[0..1] && Width(I8) == 1;
    assert Start(CharInt, 16) == Acc(0, 0, false, Zeros(16));
    assert MainStep(CharInt, 0, false, 0, 0, rule) == Copy(Some(Source(RAX, 0)), 1, 0);
    CopyStepTo(rf, CharInt, false, rule, 0, Start(CharInt, 16), Source(RAX, 0), 1, 0, w[0..1] + Zeros(15));
  }

  /** As written, `i` is taken from rax at the running count of integer
      bytes, 1, so the buffer holds bytes 1..5 of rax where `i` belongs. */
  lemma CharThenIntAsWritten(rf: RegisterFile, mem: Memory)
    requires RAX in rf.gpr
    ensures var w := Word(rf.gpr[RAX]);
      GetReturnValueObjectImpl(Inferior(Some(rf), mem), CharThenInt)
      == Some(Bytes([w[0]] + Zeros(3) + w[1..5] + Zeros(8)))
  {
    var w := Word(rf.gpr[RAX]);
    assert AtOffsets(CharThenInt.kind.fields) == CharInt;
    CharThenIntLoopAsWritten(rf);
    assert w[0..1] == [w[0]];
    ImplOfStruct(rf, mem, CharThenInt, CharInt, Finished(Acc(5, 0, false, w[0..1] + Zeros(3) + w[1..5] + Zeros(8))));
  }

  lemma CharThenIntLoopAsWritten(rf: RegisterFile)
    requires RAX in rf.gpr
    ensures var w := Word(rf.gpr[RAX]);
      ClassifyLeaves(rf, CharInt, false, ByCounter, 0, Start(CharInt, 16))
      == Finished(Acc(5, 0, false, w[0..1] + Zeros(3) + w[1..5] + Zeros(8)))
  {
    CharThenIntFirst(rf, ByCounter);
    CharThenIntSecondAsWritten(rf);
  }

  lemma CharThenIntSecondAsWritten(rf: RegisterFile)
    requires RAX in rf.gpr
    ensures var w := Word(rf.gpr[RAX]);
      ClassifyLeaves(rf, CharInt, false, ByCounter, 1, Acc(1, 0, false, w[0..1] + Zeros(15)))
      == Finished(Acc(5, 0, false, w[0..1] + Zeros(3) + w[1..5] + Zeros(8)))
  {
    var w := Word(rf.gpr[RAX]);
    SpliceInZeros(w[0..1], 3, w[1..5], 15);
    assert RegisterData(rf, RAX)[1..5] == w[1..5] && Width(I32) == 4;
    assert MainStep(CharInt, 1, false, 1, 0, ByCounter) == Copy(Some(Source(RAX, 1)), 5, 0);
    CopyStepTo(rf, CharInt, false, ByCounter, 1, Acc(1, 0, false, w[0..1] + Zeros(15)), Source(RAX, 1), 5, 0, w[0..1] + Zeros(3) + w[1..5] + Zeros(8));
    Done(rf, CharInt, false, ByCounter, Acc(5, 0, false, w[0..1] + Zeros(3) + w[1..5] + Zeros(8)));
  }

  /** Located by offset, `i` comes from bytes 4..8 of rax. */
  lemma CharThenIntByOffset(rf: RegisterFile, mem: Memory)
    requires RAX in rf.gpr
    ensures var w := Word(rf.gpr[RAX]);
      GetReturnValueByOffset(Inferior(Some(rf), mem), CharThenInt)
      == Some(Bytes([w[0]] + Zeros(3) + w[4..8] + Zeros(8)))
  {
    var w := Word(rf.gpr[RAX]);
    assert AtOffsets(CharThenInt.kind.fields) == CharInt;
    CharThenIntLoopByOffset(rf);
    assert w[0..1] == [w[0]];
    ByOffsetOfStruct(rf, mem, CharThenInt, CharInt, Finished(Acc(8, 0, false, w[0..1] + Zeros(3) + w[4..8] + Zeros(8))));
  }

  lemma CharThenIntLoopByOffset(rf: RegisterFile)
    requires RAX in rf.gpr
    ensures var w := Word(rf.gpr[RAX]);
      ClassifyLeaves(rf, CharInt, false, ByOffset, 0, Start(CharInt, 16))
      == Finished(Acc(8, 0, false, w[0..1] + Zeros(3) + w[4..8] + Zeros(8)))
  {
    CharThenIntFirst(rf, ByOffset);
    CharThenIntSecondByOffset(rf);
  }

  lemma CharThenIntSecondByOffset(rf: RegisterFile)
    requires RAX in rf.gpr
    ensures var w := Word(rf.gpr[RAX]);
      ClassifyLeaves(rf, CharInt, false, ByOffset, 1, Acc(1, 0, false, w[0..1] + Zeros(15)))
      == Finished(Acc(8, 0, false, w[0..1] + Zeros(3) + w[4..8] + Zeros(8)))
  {
    var w := Word(rf.gpr[RAX]);
    SpliceInZeros(w[0..1], 3, w[4..8], 15);
    assert RegisterData(rf, RAX)[4..8] == w[4..8] && Width(I32) == 4;
    assert MainStep(CharInt, 1, false, 1, 0, ByOffset) == Copy(Some(Source(RAX, 4)), 8, 0);
    CopyStepTo(rf, CharInt, false, ByOffset, 1, Acc(1, 0, false, w[0..1] + Zeros(15)), Source(RAX, 4), 8, 0, w[0..1] + Zeros(3) + w[4..8] + Zeros(8));
    Done(rf, CharInt, false, ByOffset, Acc(8, 0, false, w[0..1] + Zeros(3) + w[4..8] + Zeros(8)));
  }

  /** The bytes of rax after `return (struct { char c; int i; }){ 'A', 7 };`. */
  const ExampleRax: seq<byte> := [0x41, 0, 0, 0, 7, 0, 0, 0]

  lemma ExampleWord(rf: RegisterFile)
    requires RAX in rf.gpr && rf.gpr[RAX] == DecodeLE(ExampleRax)
    ensures Word(rf.gpr[RAX]) == ExampleRax
  {
    EncodeDecode(ExampleRax);
  }

  /** A function returning `{ 'A', 7 }` leaves 0x0000_0007_0000_0041 in
      rax. As written, the bytes of `i` read 0x0700_0000. */
  lemma PaddingAsWritten(rf: RegisterFile, mem: Memory)
    requires RAX in rf.gpr && rf.gpr[RAX] == DecodeLE(ExampleRax)
    ensures GetReturnValueObjectImpl(Inferior(Some(rf), mem), CharThenInt) == Some(Bytes([0x41, 0, 0, 0, 0, 0, 0, 7] + Zeros(8)))
  {
    ExampleWord(rf);
    CharThenIntAsWritten(rf, mem);
    ExampleBytesAsWritten(Word(rf.gpr[RAX]));
  }

  lemma ExampleBytesAsWritten(w: seq<byte>)
    requires w == ExampleRax
    ensures [w[0]] + Zeros(3) + w[1..5] + Zeros(8) == [0x41, 0, 0, 0, 0, 0, 0, 7] + Zeros(8)
  {
    assert w[1..5] == [0, 0, 0, 7];
    assert Zeros(3) == [0, 0, 0];
  }

  /** Located by offset, the bytes of `i` read 7. */
  lemma PaddingByOffset(rf: RegisterFile, mem: Memory)
    requires RAX in rf.gpr && rf.gpr[RAX] == DecodeLE(ExampleRax)
    ensures GetReturnValueByOffset(Inferior(Some(rf), mem), CharThenInt) == Some(Bytes([0x41, 0, 0, 0, 7, 0, 0, 0] + Zeros(8)))
  {
    ExampleWord(rf);
    CharThenIntByOffset(rf, mem);
    ExampleBytesByOffset(Word(rf.gpr[RAX]));
  }

  lemma ExampleBytesByOffset(w: seq<byte>)
    requires w == ExampleRax
    ensures [w[0]] + Zeros(3) + w[4..8] + Zeros(8) == [0x41, 0, 0, 0, 7, 0, 0, 0] + Zeros(8)
  {
    assert w[4..8] == [7, 0, 0, 0];
    assert Zeros(3) == [0, 0, 0];
  }

  // struct { struct { int a; int b; } in; long c; }, walked by the nested extraction

  const IntPair: CType := Struct(8, [Field(0, I32), Field(32, I32)])

  const Nested: CType := Struct(16, [Field(0, IntPair), Field(64, I64)])

  /** One integer field of the nested extraction, copied from a register
      into the buffer, which becomes `out`. */
  lemma IntFieldCopies(rf: RegisterFile, t: CType, d: nat, idx: nat, acc: Acc, src: Source, ib: nat, out: seq<byte>)
    requires SizedTree(t) && idx < |Children(t)|
    requires NestedIntegerClass(Children(t)[idx].ty)
    requires Width(Children(t)[idx].ty) > 0
    requires (Children(t)[idx].bitOffset / 8 * 8) % (Width(Children(t)[idx].ty) * 8) == 0
    requires PlaceInteger(acc.intBytes, Width(Children(t)[idx].ty), t.swift) == IntStep(Some(src), ib)
    requires src.from + Width(Children(t)[idx].ty) <= |RegisterData(rf, src.reg)|
    requires Splice(acc.buffer, d + Children(t)[idx].bitOffset / 8,
                    RegisterData(rf, src.reg)[src.from .. src.from + Width(Children(t)[idx].ty)]) == out
    ensures FieldStep(rf, t, d, idx, acc) == Next(Acc(ib, acc.fpBytes, acc.isMemory, out))
  {
    IntegerFieldStep(rf, t, d, idx, acc, src, ib);
    CopyFromSource(rf, src, d + Children(t)[idx].bitOffset / 8, Width(Children(t)[idx].ty), acc.buffer);
  }

  lemma IntegerFieldStep(rf: RegisterFile, t: CType, d: nat, idx: nat, acc: Acc, src: Source, ib: nat)
    requires SizedTree(t) && idx < |Children(t)|
    requires NestedIntegerClass(Children(t)[idx].ty)
    requires Width(Children(t)[idx].ty) > 0
    requires (Children(t)[idx].bitOffset / 8 * 8) % (Width(Children(t)[idx].ty) * 8) == 0
    requires PlaceInteger(acc.intBytes, Width(Children(t)[idx].ty), t.swift) == IntStep(Some(src), ib)
    ensures FieldStep(rf, t, d, idx, acc)
         == Next(Acc(ib, acc.fpBytes, acc.isMemory,
                     CopyIfPossible(rf, Some(src), d + Children(t)[idx].bitOffset / 8, Width(Children(t)[idx].ty), acc.buffer)))
  {
  }

  /** A field that hands the extraction on to the next one. */
  lemma ExtractNext(rf: RegisterFile, t: CType, d: nat, idx: nat, acc: Acc, a: Acc)
    requires SizedTree(t) && idx < |Children(t)|
    requires FieldStep(rf, t, d, idx, acc) == Next(a)
    ensures ExtractFields(rf, t, d, idx, acc) == ExtractFields(rf, t, d, idx + 1, a)
  {
  }

  lemma CopyFromSource(rf: RegisterFile, src: Source, at: nat, w: nat, buf: seq<byte>)
    requires src.from + w <= |RegisterData(rf, src.reg)|
    ensures CopyIfPossible(rf, Some(src), at, w, buf) == Splice(buf, at, RegisterData(rf, src.reg)[src.from .. src.from + w])
  {
  }

  /** A nested aggregate field whose own extraction succeeds. */
  lemma ExtractNestedStep(rf: RegisterFile, t: CType, d: nat, idx: nat, acc: Acc, after: Acc)
    requires SizedTree(t) && idx < |Children(t)|
    requires Children(t)[idx].ty.kind.Record?
    requires Width(Children(t)[idx].ty) > 0
    requires (Children(t)[idx].bitOffset / 8 * 8) % (Width(Children(t)[idx].ty) * 8) == 0
    requires SizedTree(Children(t)[idx].ty)
    requires ExtractBytesFromRegisters(rf, Children(t)[idx].ty, d + Children(t)[idx].bitOffset / 8, acc) == Extracted(true, after)
    ensures ExtractFields(rf, t, d, idx, acc) == ExtractFields(rf, t, d, idx + 1, after)
  {
  }

  /** The extraction succeeds after the last field. */
  lemma ExtractDone(rf: RegisterFile, t: CType, d: nat, acc: Acc)
    requires SizedTree(t)
    ensures ExtractFields(rf, t, d, |Children(t)|, acc) == Extracted(true, acc)
  {
  }

  /** A type without children whose size is known and non-zero is sized. */
  lemma SizedPrimitive(t: CType)
    requires t.byteSize.Some? && t.byteSize.value > 0 && Children(t) == []
    ensures SizedTree(t)
  {
    assert SizedChildren(t, 0);
  }

  lemma SizedExample()
    ensures SizedTree(IntPair) && SizedTree(Nested)
  {
    SizedPrimitive(I32);
    SizedPrimitive(I64);
    assert SizedChildren(IntPair, 2);
    assert SizedChildren(IntPair, 1);
    assert SizedChildren(IntPair, 0);
    assert SizedChildren(Nested, 2);
    assert SizedChildren(Nested, 1);
    assert SizedChildren(Nested, 0);
  }

  /** The nested extraction fills the buffer as the flattening would: the
      inner pair from rax, the long from rdx. */
  lemma NestedPair(rf: RegisterFile)
    requires RAX in rf.gpr && RDX in rf.gpr
    ensures SizedTree(Nested)
    ensures ExtractBytesFromRegisters(rf, Nested, 0, Acc(0, 0, false, Zeros(16)))
         == Extracted(true, Acc(16, 0, false, Word(rf.gpr[RAX]) + Word(rf.gpr[RDX])))
  {
    SizedExample();
    NestedPairInner(rf);
    NestedPairOuter(rf);
  }

  lemma NestedPairInner(rf: RegisterFile)
    requires RAX in rf.gpr
    ensures SizedTree(IntPair)
    ensures ExtractBytesFromRegisters(rf, IntPair, 0, Acc(0, 0, false, Zeros(16)))
         == Extracted(true, Acc(8, 0, false, Word(rf.gpr[RAX]) + Zeros(8)))
  {
    SizedExample();
    NestedPairFirstInt(rf);
    NestedPairSecondInt(rf);
    ExtractDone(rf, IntPair, 0, Acc(8, 0, false, Word(rf.gpr[RAX]) + Zeros(8)));
  }

  lemma NestedPairFirstInt(rf: RegisterFile)
    requires RAX in rf.gpr
    ensures SizedTree(IntPair)
    ensures ExtractFields(rf, IntPair, 0, 0, Acc(0, 0, false, Zeros(16)))
         == ExtractFields(rf, IntPair, 0, 1, Acc(4, 0, false, Word(rf.gpr[RAX])[0..4] + Zeros(12)))
  {
    SizedExample();
    var w := Word(rf.gpr[RAX]);
    SpliceAtStart(w[0..4], 12);
    assert RegisterData(rf, RAX)[0..4] == w[0..4];
    assert Width(I32) == 4;
    IntFieldCopies(rf, IntPair, 0, 0, Acc(0, 0, false, Zeros(16)), Source(RAX, 0), 4, w[0..4] + Zeros(12));
    ExtractNext(rf, IntPair, 0, 0, Acc(0, 0, false, Zeros(16)), Acc(4, 0, false, w[0..4] + Zeros(12)));
  }

  lemma NestedPairSecondInt(rf: RegisterFile)
    requires RAX in rf.gpr
    ensures SizedTree(IntPair)
    ensures ExtractFields(rf, IntPair, 0, 1, Acc(4, 0, false, Word(rf.gpr[RAX])[0..4] + Zeros(12)))
         == ExtractFields(rf, IntPair, 0, 2, Acc(8, 0, false, Word(rf.gpr[RAX]) + Zeros(8)))
  {
    SizedExample();
    var w := Word(rf.gpr[RAX]);
    SpliceInZeros(w[0..4], 0, w[4..8], 12);
    assert w[0..4] + Zeros(0) + w[4..8] == w;
    assert RegisterData(rf, RAX)[4..8] == w[4..8];
    assert Width(I32) == 4;
    IntFieldCopies(rf, IntPair, 0, 1, Acc(4, 0, false, w[0..4] + Zeros(12)), Source(RAX, 4), 8, w + Zeros(8));
    ExtractNext(rf, IntPair, 0, 1, Acc(4, 0, false, w[0..4] + Zeros(12)), Acc(8, 0, false, w + Zeros(8)));
  }

  lemma NestedPairOuter(rf: RegisterFile)
    requires RAX in rf.gpr && RDX in rf.gpr
    requires SizedTree(IntPair) && SizedTree(Nested)
    requires ExtractBytesFromRegisters(rf, IntPair, 0, Acc(0, 0, false, Zeros(16)))
          == Extracted(true, Acc(8, 0, false, Word(rf.gpr[RAX]) + Zeros(8)))
    ensures ExtractBytesFromRegisters(rf, Nested, 0, Acc(0, 0, false, Zeros(16)))
         == Extracted(true, Acc(16, 0, false, Word(rf.gpr[RAX]) + Word(rf.gpr[RDX])))
  {
    var a1 := Acc(8, 0, false, Word(rf.gpr[RAX]) + Zeros(8));
    ExtractNestedStep(rf, Nested, 0, 0, Acc(0, 0, false, Zeros(16)), a1);
    NestedPairLong(rf);
    ExtractDone(rf, Nested, 0, Acc(16, 0, false, Word(rf.gpr[RAX]) + Word(rf.gpr[RDX])));
  }

  lemma NestedPairLong(rf: RegisterFile)
    requires RAX in rf.gpr && RDX in rf.gpr
    ensures SizedTree(Nested)
    ensures ExtractFields(rf, Nested, 0, 1, Acc(8, 0, false, Word(rf.gpr[RAX]) + Zeros(8)))
         == ExtractFields(rf, Nested, 0, 2, Acc(16, 0, false, Word(rf.gpr[RAX]) + Word(rf.gpr[RDX])))
  {
    SizedExample();
    var wa, wd := Word(rf.gpr[RAX]), Word(rf.gpr[RDX]);
    assert RegisterData(rf, RDX)[0..8] == wd;
    SpliceInZeros(wa, 0, wd, 8);
    assert wa + Zeros(0) + wd + Zeros(0) == wa + wd;
    assert Width(I64) == 8;
    IntFieldCopies(rf, Nested, 0, 1, Acc(8, 0, false, wa + Zeros(8)), Source(RDX, 0), 16, wa + wd);
    ExtractNext(rf, Nested, 0, 1, Acc(8, 0, false, wa + Zeros(8)), Acc(16, 0, false, wa + wd));
  }
}
