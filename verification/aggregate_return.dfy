/** Return values of small aggregates. The aggregate is flattened into its
    primitive fields; each field is then assigned, in order, a source
    register and an offset in it, by two counters that track how much of the
    integer registers (rax, rdx; rcx and r8 for Swift) and of the vector
    registers (xmm0, xmm1) has been used. The bytes are gathered into a
    buffer laid out like the aggregate. An aggregate that does not qualify
    lives in memory, at the address left in rax. */
module AggregateReturn {
  import opened Base
  import opened Registers
  import opened Machine
  import opened Types
  import opened SimpleReturn

  /** A primitive field of a flattened aggregate: its byte offset from the
      start of the outermost aggregate, and its type. */
  datatype Leaf = Leaf(offset: nat, ty: CType)

  /** The size in bytes of a type whose size is known. */
  function Width(t: CType): nat
  {
    if t.byteSize.Some? then t.byteSize.value else 0
  }

  /** What flattening produces: primitives of known non-zero size. */
  predicate GoodLeaf(l: Leaf)
  {
    IsLeafType(l.ty) && Width(l.ty) > 0
  }

  predicate GoodLeaves(ls: seq<Leaf>)
  {
    forall k :: 0 <= k < |ls| ==> GoodLeaf(ls[k])
  }

  /** Shifts every leaf `delta` bytes further into the aggregate. */
  function Shift(ls: seq<Leaf>, delta: nat): (r: seq<Leaf>)
    ensures |r| == |ls|
    ensures forall k :: 0 <= k < |ls| ==> r[k] == Leaf(ls[k].offset + delta, ls[k].ty)
  {
    if ls == [] then [] else [Leaf(ls[0].offset + delta, ls[0].ty)] + Shift(ls[1..], delta)
  }

  /** The primitive fields of fields `idx..` of `t`, in declaration order,
      nested aggregates expanded in place, offsets counted from `base`;
      nothing if any field met has an unknown or zero size. */
  function FlattenAggregateType(t: CType, base: nat, idx: nat): (r: Option<seq<Leaf>>)
    requires idx <= |Children(t)|
    ensures r.Some? ==> GoodLeaves(r.value)
    ensures idx < |Children(t)| && Width(Children(t)[idx].ty) == 0 ==> r.None?
    decreases t, |Children(t)| - idx, 1
  {
    if idx == |Children(t)| then Some([])
    else if Width(Children(t)[idx].ty) == 0 then None
    else
      match FieldLeaves(t, base, idx)
      case None => None
      case Some(h) =>
        match FlattenAggregateType(t, base, idx + 1)
        case None => None
        case Some(rest) => Some(h + rest)
  }

  /** The primitive fields field `idx` of `t` contributes: itself if it is
      a primitive, its own flattening if it has children, else nothing. */
  function FieldLeaves(t: CType, base: nat, idx: nat): (r: Option<seq<Leaf>>)
    requires idx < |Children(t)| && Width(Children(t)[idx].ty) > 0
    ensures r.Some? ==> GoodLeaves(r.value)
    decreases t, |Children(t)| - idx, 0
  {
    var f := Children(t)[idx];
    var off := f.bitOffset / 8 + base;
    if IsLeafType(f.ty) then Some([Leaf(off, f.ty)])
    else if HasChildren(f.ty) then FlattenAggregateType(f.ty, off, 0)
    else Some([])
  }

  /** Flattening from a base offset is flattening from zero, shifted: every
      leaf's offset is the sum of the byte offsets of the fields on its path
      plus the base. */
  lemma {:induction false} FlattenShift(t: CType, base: nat, idx: nat)
    requires idx <= |Children(t)|
    ensures FlattenAggregateType(t, base, idx).Some? <==> FlattenAggregateType(t, 0, idx).Some?
    ensures FlattenAggregateType(t, base, idx).Some? ==>
      FlattenAggregateType(t, base, idx).value == Shift(FlattenAggregateType(t, 0, idx).value, base)
    decreases t, |Children(t)| - idx, 1
  {
    if idx < |Children(t)| && Width(Children(t)[idx].ty) > 0 {
      FlattenShift(t, base, idx + 1);
      FieldShift(t, base, idx);
      var h0 := FieldLeaves(t, 0, idx);
      var r0 := FlattenAggregateType(t, 0, idx + 1);
      if h0.Some? && r0.Some? {
        ShiftAppend(h0.value, r0.value, base);
      }
    }
  }

  lemma {:induction false} FieldShift(t: CType, base: nat, idx: nat)
    requires idx < |Children(t)| && Width(Children(t)[idx].ty) > 0
    ensures FieldLeaves(t, base, idx).Some? <==> FieldLeaves(t, 0, idx).Some?
    ensures FieldLeaves(t, base, idx).Some? ==>
      FieldLeaves(t, base, idx).value == Shift(FieldLeaves(t, 0, idx).value, base)
    decreases t, |Children(t)| - idx, 0
  {
    var f := Children(t)[idx];
    var off := f.bitOffset / 8;
    if IsLeafType(f.ty) {
      assert FieldLeaves(t, base, idx) == Some([Leaf(off + base, f.ty)]);
      assert FieldLeaves(t, 0, idx) == Some([Leaf(off, f.ty)]);
      assert Shift([Leaf(off, f.ty)], base) == [Leaf(off + base, f.ty)];
    } else if HasChildren(f.ty) {
      assert FieldLeaves(t, base, idx) == FlattenAggregateType(f.ty, off + base, 0);
      assert FieldLeaves(t, 0, idx) == FlattenAggregateType(f.ty, off, 0);
      NestedShift(f.ty, off, base);
    } else {
      assert FieldLeaves(t, base, idx) == Some([]) == FieldLeaves(t, 0, idx);
    }
  }

  /** A field's own flattening, moved by a further `delta`. */
  lemma {:induction false} NestedShift(t: CType, off: nat, delta: nat)
    ensures FlattenAggregateType(t, off + delta, 0).Some? <==> FlattenAggregateType(t, off, 0).Some?
    ensures FlattenAggregateType(t, off + delta, 0).Some? ==>
      FlattenAggregateType(t, off + delta, 0).value == Shift(FlattenAggregateType(t, off, 0).value, delta)
    decreases t, |Children(t)| + 1, 0
  {
    FlattenShift(t, off + delta, 0);
    FlattenShift(t, off, 0);
    var z := FlattenAggregateType(t, 0, 0);
    if z.Some? {
      ShiftTwice(z.value, off, delta);
    }
  }

  lemma ShiftAppend(a: seq<Leaf>, b: seq<Leaf>, delta: nat)
    ensures Shift(a + b, delta) == Shift(a, delta) + Shift(b, delta)
  {
    var l := Shift(a + b, delta);
    var rr := Shift(a, delta) + Shift(b, delta);
    assert |l| == |rr|;
    forall k | 0 <= k < |l|
      ensures l[k] == rr[k]
    {
      if k < |a| {
        assert (a + b)[k] == a[k];
      } else {
        assert (a + b)[k] == b[k - |a|];
      }
    }
  }

  lemma ShiftTwice(a: seq<Leaf>, x: nat, y: nat)
    ensures Shift(Shift(a, x), y) == Shift(a, x + y)
  {
    var l := Shift(Shift(a, x), y);
    var rr := Shift(a, x + y);
    assert |l| == |rr|;
    forall k | 0 <= k < |l|
      ensures l[k] == rr[k]
    {
    }
  }

  /** Every type in a fully sized tree flattens. */
  lemma {:induction false} FlattenSucceeds(t: CType, base: nat, idx: nat)
    requires idx <= |Children(t)|
    requires SizedChildren(t, idx)
    ensures FlattenAggregateType(t, base, idx).Some?
    decreases t, |Children(t)| - idx
  {
    if idx < |Children(t)| {
      var f := Children(t)[idx];
      FlattenSucceeds(t, base, idx + 1);
      if HasChildren(f.ty) {
        FlattenSucceeds(f.ty, f.bitOffset / 8 + base, 0);
      }
      assert FieldLeaves(t, base, idx).Some?;
    }
  }

  /** A type with a field of unknown or zero size anywhere below it does not
      flatten. */
  lemma {:induction false} FlattenFailsOnUnsized(t: CType, base: nat, idx: nat)
    requires idx <= |Children(t)|
    requires !SizedChildren(t, idx)
    ensures FlattenAggregateType(t, base, idx).None?
    decreases t, |Children(t)| - idx
  {
    var f := Children(t)[idx];
    if SizedTree(f.ty) {
      FlattenFailsOnUnsized(t, base, idx + 1);
    } else if f.ty.byteSize.Some? && f.ty.byteSize.value > 0 {
      FlattenFailsOnUnsized(f.ty, f.bitOffset / 8 + base, 0);
    }
  }

  /** Flattening succeeds exactly on fully sized trees. */
  lemma FlattenIffSized(t: CType, base: nat, idx: nat)
    requires idx <= |Children(t)|
    ensures FlattenAggregateType(t, base, idx).Some? <==> SizedChildren(t, idx)
  {
    if SizedChildren(t, idx) {
      FlattenSucceeds(t, base, idx);
    } else {
      FlattenFailsOnUnsized(t, base, idx);
    }
  }

  /** The fields of an aggregate all of whose fields are primitives flatten
      to themselves, in order, at their byte offsets. */
  lemma {:induction false} FlattenPrimitiveFields(t: CType, base: nat, idx: nat)
    requires idx <= |Children(t)|
    requires forall k :: idx <= k < |Children(t)| ==> IsLeafType(Children(t)[k].ty) && Width(Children(t)[k].ty) > 0
    ensures FlattenAggregateType(t, base, idx) == Some(PrimitiveLeaves(t, base, idx))
    decreases |Children(t)| - idx
  {
    if idx < |Children(t)| {
      FlattenPrimitiveFields(t, base, idx + 1);
      var f := Children(t)[idx];
      var all := PrimitiveLeaves(t, base, idx);
      var rest := PrimitiveLeaves(t, base, idx + 1);
      assert all == [Leaf(f.bitOffset / 8 + base, f.ty)] + rest;
    }
  }

  /** Each field `idx..` of `t` as a leaf at its byte offset from `base`. */
  function PrimitiveLeaves(t: CType, base: nat, idx: nat): (r: seq<Leaf>)
    requires idx <= |Children(t)|
    ensures |r| == |Children(t)| - idx
    ensures forall k :: 0 <= k < |r| ==> r[k] == Leaf(Children(t)[idx + k].bitOffset / 8 + base, Children(t)[idx + k].ty)
  {
    seq(|Children(t)| - idx, k requires 0 <= k < |Children(t)| - idx =>
      Leaf(Children(t)[idx + k].bitOffset / 8 + base, Children(t)[idx + k].ty))
  }

  /** A register and the byte offset in it a field is copied from. */
  datatype Source = Source(reg: Reg, from: nat)

  /** The outcome of placing an integer-class field: its source, if one was
      chosen, and the new integer counter; or the field does not fit. */
  datatype IntStep = IntStep(src: Option<Source>, intBytes: nat) | NoFit

  /** Placement of an integer-class field of `w` bytes when `ib` bytes of the
      integer return registers are in use. */
  function PlaceInteger(ib: nat, w: nat, swift: bool): (r: IntStep)
    // a field that fits in the rest of rax comes from there
    ensures ib < 8 && ib + w <= 8 ==> r == IntStep(Some(Source(RAX, ib)), ib + w)
    // one that does not starts rdx
    ensures ib < 8 && ib + w > 8 ==> r == IntStep(Some(Source(RDX, 0)), 8 + w)
    // a field of at most eight bytes never straddles two registers
    ensures r.IntStep? && r.src.Some? && w <= 8 ==> r.src.value.from + w <= 8
    // outside Swift only rax and rdx are used, and overflowing rdx finds
    // no register
    ensures !swift && r.IntStep? && r.src.Some? ==> r.src.value.reg in {RAX, RDX}
    ensures !swift && 8 <= ib < 16 && ib + w > 16 ==> r == IntStep(None, ib)
    ensures !swift && ib >= 16 ==> r == NoFit
    ensures !swift && r.IntStep? ==> r.intBytes >= ib
    // Swift may use rcx and r8 as well, up to 32 bytes
    ensures swift && r.IntStep? && r.src.Some? ==> r.src.value.reg in {RAX, RDX, RCX, R8}
    ensures r == NoFit <==> ib >= 16 && (!swift || (ib >= 24 && ib + w > 32))
  {
    if ib < 8 then
      if ib + w <= 8 then IntStep(Some(Source(RAX, ib)), ib + w)
      else IntStep(Some(Source(RDX, 0)), 8 + w)
    else if ib < 16 then
      if ib + w <= 16 then IntStep(Some(Source(RDX, ib - 8)), ib + w)
      else if swift then IntStep(Some(Source(RCX, 0)), 8 + w)
      else IntStep(None, ib)
    else if swift && ib < 24 then
      if ib + w <= 24 then IntStep(Some(Source(RCX, ib - 16)), ib + w)
      else IntStep(Some(Source(R8, 0)), 16 + w)
    else if swift && ib + w <= 32 then IntStep(Some(Source(R8, ib - 24)), ib + w)
    else NoFit
  }

  /** For Swift types the integer counter can move backwards: a field pushed
      to rcx resets it to eight plus the field's width, so the next field is
      again taken from rdx although rdx has been passed. */
  lemma SwiftCounterMovesBack()
    ensures PlaceInteger(15, 2, true) == IntStep(Some(Source(RCX, 0)), 10)
    ensures PlaceInteger(10, 2, true) == IntStep(Some(Source(RDX, 2)), 12)
  {
  }

  /** Where a field that shares a general-purpose register comes from. */
  function GprSource(ib: nat): (s: Source)
    ensures s.reg == (if ib < 8 then RAX else RDX)
    ensures s.from + 8 == (if ib < 8 then ib + 8 else ib)
  {
    if ib < 8 then Source(RAX, ib) else Source(RDX, ib - 8)
  }

  /** The classification of one flattened field. */
  datatype Step =
    | Copy(src: Option<Source>, intBytes: nat, fpBytes: nat)   // copy from `src`, then go on with these counters
    | StopInMemory                                          // the aggregate is in memory; stop looking
    | SkipInMemory                                          // the aggregate is in memory; look at the rest anyway
    | Abandon                                               // give up: no value at all

  /** The integer-class fields of the main loop. */
  predicate IntegerClass(t: CType)
  {
    IsIntegerOrEnumeration(t) || IsPointer(t) || t.kind.Ref? || (t.kind.SwiftEnum? && Width(t) <= 8)
  }

  /** A 4-byte float that starts an eightbyte shares a general-purpose
      register when the next field is an integer; one in the middle of an
      eightbyte does when the previous field is. */
  predicate FloatInGpr(leaves: seq<Leaf>, idx: nat)
    requires idx < |leaves|
  {
    if leaves[idx].offset % 8 == 0 then idx + 1 < |leaves| && IsIntegerOrEnumeration(leaves[idx + 1].ty)
    else idx > 0 && IsIntegerOrEnumeration(leaves[idx - 1].ty)
  }

  /** How a field that shares the general-purpose registers is located:
      by the running integer counter, as the loop does; or by the field's
      own offset in the aggregate, where the calling convention puts it. The
      two differ when padding precedes a field inside an eightbyte. */
  datatype GprRule = ByCounter | ByOffset

  /** The register and offset of the bytes `[off, off + w)` of an aggregate
      returned in rax:rdx; nothing if they lie past rdx or straddle the two. */
  function EightbyteSource(off: nat, w: nat): (s: Option<Source>)
    ensures s.Some? <==> off < 16 && off % 8 + w <= 8
    ensures s.Some? ==> s.value.reg == (if off < 8 then RAX else RDX)
    ensures s.Some? ==> 8 * (if off < 8 then 0 else 1) + s.value.from == off
  {
    if off < 16 && off % 8 + w <= 8 then Some(Source(if off < 8 then RAX else RDX, off % 8)) else None
  }

  /** The source of a field placed in the general-purpose registers by the
      floating-point rules. */
  function SharedGprSource(rule: GprRule, leaf: Leaf, ib: nat): Option<Source>
  {
    match rule
    case ByCounter => Some(GprSource(ib))
    case ByOffset => EightbyteSource(leaf.offset, Width(leaf.ty))
  }

  /** Classification of the floating-point field `leaves[idx]`. */
  function FloatStep(leaves: seq<Leaf>, idx: nat, ib: nat, fp: nat, rule: GprRule): (r: Step)
    requires idx < |leaves| && IsFloatingPoint(leaves[idx].ty)
    // long doubles put the aggregate in memory
    ensures Width(leaves[idx].ty) == 16 ==> r == StopInMemory
    // a double takes a vector register of its own: xmm0 if none is used yet
    ensures Width(leaves[idx].ty) == 8 ==>
      r == Copy(Some(Source(if fp == 0 then XMM0 else XMM1, 0)), ib, fp + 8)
    // a float not on a four-byte boundary puts the aggregate in memory
    ensures Width(leaves[idx].ty) == 4 && leaves[idx].offset % 4 != 0 ==> r == SkipInMemory
    ensures Width(leaves[idx].ty) == 4 && leaves[idx].offset % 4 == 0 ==>
      && r.Copy?
      && (FloatInGpr(leaves, idx) ==> r == Copy(SharedGprSource(rule, leaves[idx], ib), ib + 4, fp))
      && (!FloatInGpr(leaves, idx) ==>
            && r.src.Some?
            && r.intBytes == ib && r.fpBytes == fp + 4
            && r.src.value.reg == (if fp < 8 then XMM0 else XMM1)
            && r.src.value.from in {0, 4})
    ensures Width(leaves[idx].ty) !in {4, 8, 16} ==> r == Copy(None, ib, fp)
  {
    var leaf := leaves[idx];
    var w := Width(leaf.ty);
    if 8 * w == 128 then StopInMemory
    else if 8 * w == 64 then Copy(Some(Source(if fp == 0 then XMM0 else XMM1, 0)), ib, fp + w)
    else if 8 * w == 32 then
      if leaf.offset % 8 == 0 || leaf.offset % 4 == 0 then
        if FloatInGpr(leaves, idx) then Copy(SharedGprSource(rule, leaf, ib), ib + w, fp)
        else
          // in the middle of an eightbyte after another float: the upper
          // half of the vector register
          var from := if leaf.offset % 8 != 0 && idx > 0 then 4 else 0;
          Copy(Some(Source(if fp < 8 then XMM0 else XMM1, from)), ib, fp + w)
      else SkipInMemory
    else Copy(None, ib, fp)
  }

  /** Classification of the flattened field `leaves[idx]` with `ib` integer
      and `fp` vector bytes in use. Flattened fields are primitives, so a
      field that is neither of integer class nor floating point does not
      occur here. */
  function MainStep(leaves: seq<Leaf>, idx: nat, swift: bool, ib: nat, fp: nat, rule: GprRule): (r: Step)
    requires idx < |leaves| && GoodLeaf(leaves[idx])
    ensures IntegerClass(leaves[idx].ty) && rule == ByCounter ==>
      match PlaceInteger(ib, Width(leaves[idx].ty), swift)
      case NoFit => r == Abandon
      case IntStep(src, ib') => r == Copy(src, ib', fp)
    ensures IntegerClass(leaves[idx].ty) && rule == ByOffset ==>
      r == Copy(EightbyteSource(leaves[idx].offset, Width(leaves[idx].ty)), leaves[idx].offset + Width(leaves[idx].ty), fp)
    ensures !IntegerClass(leaves[idx].ty) ==> r == FloatStep(leaves, idx, ib, fp, rule)
  {
    var w := Width(leaves[idx].ty);
    if IntegerClass(leaves[idx].ty) then
      match rule
      case ByCounter =>
        (match PlaceInteger(ib, w, swift)
         case NoFit => Abandon
         case IntStep(src, ib') => Copy(src, ib', fp))
      case ByOffset =>
        Copy(EightbyteSource(leaves[idx].offset, w), leaves[idx].offset + w, fp)
    else FloatStep(leaves, idx, ib, fp, rule)
  }

  /** The state of the main loop: the two counters, whether the aggregate
      has been found to live in memory, and the bytes gathered so far. */
  datatype Acc = Acc(intBytes: nat, fpBytes: nat, isMemory: bool, buffer: seq<byte>)

  datatype Outcome = Abandoned | Finished(acc: Acc)

  /** `buf` with the `w` bytes of the field at `at` copied from `src`, or
      nothing if there is no source or the register holds too few bytes. */
  function CopyField(rf: RegisterFile, src: Option<Source>, at: nat, w: nat, buf: seq<byte>): (r: Option<seq<byte>>)
    ensures r.Some? <==> src.Some? && src.value.from + w <= |RegisterData(rf, src.value.reg)|
    ensures r.Some? ==> r.value == Splice(buf, at, RegisterData(rf, src.value.reg)[src.value.from .. src.value.from + w])
  {
    match src
    case None => None
    case Some(s) =>
      var data := RegisterData(rf, s.reg);
      if s.from + w <= |data| then Some(Splice(buf, at, data[s.from .. s.from + w])) else None
  }

  /** The main loop over the flattened fields `leaves[idx..]`. */
  function ClassifyLeaves(rf: RegisterFile, leaves: seq<Leaf>, swift: bool, rule: GprRule, idx: nat, acc: Acc): (r: Outcome)
    requires idx <= |leaves| && GoodLeaves(leaves)
    ensures r.Finished? ==> |r.acc.buffer| == |acc.buffer|
    ensures r.Finished? && acc.isMemory ==> r.acc.isMemory
    ensures r.Finished? ==> r.acc.fpBytes >= acc.fpBytes
    ensures r.Finished? && !swift && rule == ByCounter ==> r.acc.intBytes >= acc.intBytes
    decreases |leaves| - idx
  {
    if idx == |leaves| then Finished(acc)
    else
      match MainStep(leaves, idx, swift, acc.intBytes, acc.fpBytes, rule)
      case Abandon => Abandoned
      case StopInMemory => Finished(acc.(isMemory := true))
      case SkipInMemory => ClassifyLeaves(rf, leaves, swift, rule, idx + 1, acc.(isMemory := true))
      case Copy(src, ib, fp) =>
        match CopyField(rf, src, leaves[idx].offset, Width(leaves[idx].ty), acc.buffer)
        case None => Abandoned
        case Some(buf) => ClassifyLeaves(rf, leaves, swift, rule, idx + 1, Acc(ib, fp, acc.isMemory, buf))
  }

  /** The bytes available for an aggregate returned in registers: 16, or 32
      for Swift. */
  function Capacity(ty: CType): nat
  {
    if ty.swift then 32 else 16
  }

  /** The aggregate is considered for registers at all: the type system
      allows it, it fits, and it flattens. */
  predicate Admitted(ty: CType)
  {
    && IsAggregate(ty)
    && ty.byteSize.Some?
    && ty.regPassable
    && ty.byteSize.value <= Capacity(ty)
    && FlattenAggregateType(ty, 0, 0).Some?
  }

  /** The loop's starting state: both counters at the first field's offset
      (which skips the padding of an empty base class), a zeroed buffer. */
  function Start(leaves: seq<Leaf>, cap: nat): (a: Acc)
    ensures a.buffer == Zeros(cap) && !a.isMemory
    ensures a.intBytes == a.fpBytes == (if leaves == [] then 0 else leaves[0].offset)
  {
    var first := if leaves == [] then 0 else leaves[0].offset;
    Acc(first, first, false, Zeros(cap))
  }

  /** A memory-class aggregate's value: at the address in rax under the C
      convention; Swift callers keep that address themselves, so nothing. */
  function MemoryFallback(rf: RegisterFile, ty: CType): (r: Option<ReturnValue>)
    ensures ty.swift <==> r.None?
    ensures r.Some? ==> r.value == MemoryAt(ReadUnsigned(rf, RAX))
  {
    if ty.swift then None else Some(MemoryAt(ReadUnsigned(rf, RAX)))
  }

  /** The main loop's outcome for an admitted aggregate. */
  function Classify(rf: RegisterFile, ty: CType, rule: GprRule): (r: Outcome)
    requires Admitted(ty)
    ensures r.Finished? ==> r.acc.buffer != [] && |r.acc.buffer| == Capacity(ty)
  {
    var leaves := FlattenAggregateType(ty, 0, 0).value;
    // Swift's convention is not the C one; its fields stay counter-placed
    var rule' := if ty.swift then ByCounter else rule;
    ClassifyLeaves(rf, leaves, ty.swift, rule', 0, Start(leaves, Capacity(ty)))
  }

  /** The value a function returning `ty` left behind. */
  function GetReturnValueObjectImpl(t: Inferior, ty: CType): (r: Option<ReturnValue>)
    ensures GetReturnValueObjectSimple(t, ty).Some? ==> r == GetReturnValueObjectSimple(t, ty)
    ensures t.regs.None? ==> r.None?
    ensures GetReturnValueObjectSimple(t, ty).None? && (ty.byteSize.None? || !IsAggregate(ty)) ==> r.None?
    // an aggregate the type system keeps out of registers, or that is too
    // large or does not flatten, is in memory
    ensures && GetReturnValueObjectSimple(t, ty).None? && t.regs.Some?
            && IsAggregate(ty) && ty.byteSize.Some? && !Admitted(ty) ==>
      r == MemoryFallback(t.regs.value, ty)
    // otherwise the main loop decides
    ensures GetReturnValueObjectSimple(t, ty).None? && t.regs.Some? && Admitted(ty) ==>
      match Classify(t.regs.value, ty, ByCounter)
      case Abandoned => r.None?
      case Finished(acc) => r == (if acc.isMemory then MemoryFallback(t.regs.value, ty) else Some(Bytes(acc.buffer)))
    // a value gathered from registers is a buffer the size of the register
    // space; a value in memory is never reported for Swift
    ensures r.Some? && r.value.Bytes? && ty.kind.Record? ==> |r.value.data| == Capacity(ty)
    ensures r.Some? && r.value.MemoryAt? ==> !ty.swift && r.value.addr == ReadUnsigned(t.regs.value, RAX)
  {
    var simple := GetReturnValueObjectSimple(t, ty);
    if simple.Some? then simple
    else
      match t.regs
      case None => None
      case Some(rf) =>
        if ty.byteSize.None? || !IsAggregate(ty) then None
        else if !Admitted(ty) then MemoryFallback(rf, ty)
        else
          match Classify(rf, ty, ByCounter)
          case Abandoned => None
          case Finished(acc) =>
            if !acc.isMemory then Some(Bytes(acc.buffer)) else MemoryFallback(rf, ty)
  }

  /** An aggregate found to live in memory, because it is not admitted to
      registers or because a field sends it there, is read at the address
      in rax under the C convention; for Swift there is no value at all. */
  lemma InMemoryAtRax(t: Inferior, ty: CType)
    requires GetReturnValueObjectSimple(t, ty).None? && t.regs.Some?
    requires IsAggregate(ty) && ty.byteSize.Some?
    requires !Admitted(ty) || (Classify(t.regs.value, ty, ByCounter).Finished? && Classify(t.regs.value, ty, ByCounter).acc.isMemory)
    ensures ty.swift ==> GetReturnValueObjectImpl(t, ty).None?
    ensures !ty.swift ==> GetReturnValueObjectImpl(t, ty) == Some(MemoryAt(ReadUnsigned(t.regs.value, RAX)))
  {
  }

  /** The state of the main loop started on `leaves[idx..]` with `acc` when
      it reaches field `j`; nothing if it stops or gives up before. */
  function ReachedState(rf: RegisterFile, leaves: seq<Leaf>, swift: bool, rule: GprRule, idx: nat, acc: Acc, j: nat): (r: Option<Acc>)
    requires idx <= j <= |leaves| && GoodLeaves(leaves)
    ensures idx == j ==> r == Some(acc)
    decreases j - idx
  {
    if idx == j then Some(acc)
    else
      match MainStep(leaves, idx, swift, acc.intBytes, acc.fpBytes, rule)
      case SkipInMemory => ReachedState(rf, leaves, swift, rule, idx + 1, acc.(isMemory := true), j)
      case Copy(src, ib, fp) =>
        (match CopyField(rf, src, leaves[idx].offset, Width(leaves[idx].ty), acc.buffer)
         case None => None
         case Some(buf) => ReachedState(rf, leaves, swift, rule, idx + 1, Acc(ib, fp, acc.isMemory, buf), j))
      case _ => None
  }

  /** The loop that reaches field `j` in state `a` goes on from there. */
  lemma {:induction false} ClassifyFromReached(rf: RegisterFile, leaves: seq<Leaf>, swift: bool, rule: GprRule, idx: nat, acc: Acc, j: nat)
    requires idx <= j <= |leaves| && GoodLeaves(leaves)
    requires ReachedState(rf, leaves, swift, rule, idx, acc, j).Some?
    ensures ClassifyLeaves(rf, leaves, swift, rule, idx, acc)
         == ClassifyLeaves(rf, leaves, swift, rule, j, ReachedState(rf, leaves, swift, rule, idx, acc, j).value)
    decreases j - idx
  {
    if idx < j {
      var next := StepTowards(rf, leaves, swift, rule, idx, acc, j);
      ClassifyFromReached(rf, leaves, swift, rule, idx + 1, next, j);
    }
  }

  /** The state after field `idx` on the way to field `j`, and the loop
      from there. */
  lemma StepTowards(rf: RegisterFile, leaves: seq<Leaf>, swift: bool, rule: GprRule, idx: nat, acc: Acc, j: nat) returns (next: Acc)
    requires idx < j <= |leaves| && GoodLeaves(leaves)
    requires ReachedState(rf, leaves, swift, rule, idx, acc, j).Some?
    ensures ReachedState(rf, leaves, swift, rule, idx, acc, j) == ReachedState(rf, leaves, swift, rule, idx + 1, next, j)
    ensures ClassifyLeaves(rf, leaves, swift, rule, idx, acc) == ClassifyLeaves(rf, leaves, swift, rule, idx + 1, next)
  {
    var step := MainStep(leaves, idx, swift, acc.intBytes, acc.fpBytes, rule);
    if step.SkipInMemory? {
      next := acc.(isMemory := true);
    } else {
      var buf := CopyField(rf, step.src, leaves[idx].offset, Width(leaves[idx].ty), acc.buffer).value;
      next := Acc(step.intBytes, step.fpBytes, acc.isMemory, buf);
    }
  }

  /** A C integer field met with rdx partly used and too wide for the rest of
      it finds no register: the loop gives up. */
  lemma OverflowAbandons(rf: RegisterFile, leaves: seq<Leaf>, idx: nat, acc: Acc)
    requires idx < |leaves| && GoodLeaves(leaves) && IntegerClass(leaves[idx].ty)
    requires 8 <= acc.intBytes < 16 && acc.intBytes + Width(leaves[idx].ty) > 16
    ensures ClassifyLeaves(rf, leaves, false, ByCounter, idx, acc) == Abandoned
  {
    assert PlaceInteger(acc.intBytes, Width(leaves[idx].ty), false) == IntStep(None, acc.intBytes);
  }

  /** A C aggregate whose main loop reaches an integer field that overflows
      rdx has no return value at all: neither the registers nor memory. */
  lemma OverflowGivesNothing(t: Inferior, ty: CType, j: nat)
    requires GetReturnValueObjectSimple(t, ty).None? && t.regs.Some? && Admitted(ty) && !ty.swift
    requires j < |FlattenAggregateType(ty, 0, 0).value|
    requires var leaves := FlattenAggregateType(ty, 0, 0).value;
      var a := ReachedState(t.regs.value, leaves, false, ByCounter, 0, Start(leaves, 16), j);
      && a.Some? && IntegerClass(leaves[j].ty)
      && 8 <= a.value.intBytes < 16 && a.value.intBytes + Width(leaves[j].ty) > 16
    ensures GetReturnValueObjectImpl(t, ty).None?
  {
    var rf := t.regs.value;
    var leaves := FlattenAggregateType(ty, 0, 0).value;
    ClassifyFromReached(rf, leaves, false, ByCounter, 0, Start(leaves, 16), j);
    OverflowAbandons(rf, leaves, j, ReachedState(rf, leaves, false, ByCounter, 0, Start(leaves, 16), j).value);
  }

  /** The same recovery with C fields in the general-purpose registers
      located by their own offsets (`ByOffset`), as the calling convention
      lays them out. */
  function GetReturnValueByOffset(t: Inferior, ty: CType): (r: Option<ReturnValue>)
    ensures GetReturnValueObjectSimple(t, ty).Some? ==> r == GetReturnValueObjectSimple(t, ty)
    ensures t.regs.None? ==> r.None?
    ensures ty.swift ==> r == GetReturnValueObjectImpl(t, ty)
    ensures GetReturnValueObjectSimple(t, ty).None? && t.regs.Some? && Admitted(ty) ==>
      match Classify(t.regs.value, ty, ByOffset)
      case Abandoned => r.None?
      case Finished(acc) => r == (if acc.isMemory then MemoryFallback(t.regs.value, ty) else Some(Bytes(acc.buffer)))
  {
    var simple := GetReturnValueObjectSimple(t, ty);
    if simple.Some? then simple
    else
      match t.regs
      case None => None
      case Some(rf) =>
        if ty.byteSize.None? || !IsAggregate(ty) then None
        else if !Admitted(ty) then MemoryFallback(rf, ty)
        else
          match Classify(rf, ty, ByOffset)
          case Abandoned => None
          case Finished(acc) =>
            if !acc.isMemory then Some(Bytes(acc.buffer)) else MemoryFallback(rf, ty)
  }
}
