/** The field-by-field extraction of a (possibly nested) aggregate's bytes
    from the return registers, walking the type tree instead of its
    flattening. It shares the integer placement of the main loop, but it
    tests "is integer" on builtin integers only, skips a copy it cannot make
    instead of giving up, and treats a misaligned field as a failure that
    puts the aggregate in memory. */
module NestedExtract {
  import opened Base
  import opened Registers
  import opened Machine
  import opened Types
  import opened AggregateReturn

  /** The result of an extraction: whether it succeeded, and the counters,
      memory flag and buffer it leaves behind (the source passes these by
      reference, so they carry partial progress on failure too). */
  datatype Extracted = Extracted(ok: bool, acc: Acc)

  /** Fields placed in the general-purpose registers by the integer rules. */
  predicate NestedIntegerClass(t: CType)
  {
    IsInteger(t) || IsPointer(t) || t.kind.Ref? || (t.kind.SwiftEnum? && Width(t) <= 8)
  }

  /** The register a 64-bit float or vector field is copied from. The source
      tests `fp == 0`, then `fp >= 8`, then `fp >= 16`; the last can never be
      reached, so xmm2 is never chosen, and a field after four bytes of
      vector registers has no source at all. */
  function DoubleSource(fp: nat): (s: Option<Source>)
    ensures s.Some? <==> fp == 0 || fp >= 8
    ensures s.Some? ==> s.value.from == 0 && s.value.reg != XMM2
    ensures s.Some? ==> (s.value.reg == XMM0 <==> fp == 0)
  {
    var reg := if fp == 0 then Some(XMM0) else if fp >= 8 then Some(XMM1) else if fp >= 16 then Some(XMM2) else None;
    if reg.Some? then Some(Source(reg.value, 0)) else None
  }

  /** The vector register a 32-bit float not shared with integers is copied
      from: xmm0, xmm1, and for Swift xmm2. */
  function SingleSource(fp: nat, swift: bool, from: nat): (s: Option<Source>)
    ensures s.Some? <==> fp < 16 || (swift && fp < 24)
    ensures s.Some? ==> s.value.from == from && IsVectorRegister(s.value.reg)
    ensures s.Some? && s.value.reg == XMM2 ==> swift && 16 <= fp
  {
    if fp < 8 then Some(Source(XMM0, from))
    else if fp < 16 then Some(Source(XMM1, from))
    else if swift && fp < 24 then Some(Source(XMM2, from))
    else None
  }

  /** The buffer after copying `w` bytes from `src` to `at`; a copy that the
      register data cannot supply is skipped. */
  function CopyIfPossible(rf: RegisterFile, src: Option<Source>, at: nat, w: nat, buf: seq<byte>): (r: seq<byte>)
    ensures |r| == |buf|
    ensures CopyField(rf, src, at, w, buf).None? ==> r == buf
    ensures forall p :: 0 <= p < |buf| && (p < at || at + w <= p) ==> r[p] == buf[p]
  {
    match CopyField(rf, src, at, w, buf)
    case None => buf
    case Some(b) => b
  }

  /** The extraction of all fields of `t`, placed at `dataOffset` in the
      buffer. */
  function ExtractBytesFromRegisters(rf: RegisterFile, t: CType, dataOffset: nat, acc: Acc): (r: Extracted)
    requires SizedTree(t)
    ensures |r.acc.buffer| == |acc.buffer|
    ensures acc.isMemory ==> r.acc.isMemory
    ensures r.acc.fpBytes >= acc.fpBytes
    // the aggregate's bytes go at or after its own offset
    ensures forall p :: 0 <= p < |acc.buffer| && p < dataOffset ==> r.acc.buffer[p] == acc.buffer[p]
    decreases t, 1
  {
    ExtractFields(rf, t, dataOffset, 0, acc)
  }

  /** What one field does to the extraction: end it with a result, go on
      to the next field with new counters and buffer, or descend into a
      nested aggregate placed at `offset`. */
  datatype FieldAction = Stop(result: Extracted) | Next(acc: Acc) | Descend(offset: nat)

  /** The counters, memory flag and buffer keep the invariants the
      extraction maintains, relative to `acc`, for an aggregate at
      `dataOffset`. */
  predicate Keeps(acc: Acc, out: Acc, dataOffset: nat)
  {
    && |out.buffer| == |acc.buffer|
    && (acc.isMemory ==> out.isMemory)
    && out.fpBytes >= acc.fpBytes
    && forall p :: 0 <= p < |acc.buffer| && p < dataOffset ==> out.buffer[p] == acc.buffer[p]
  }

  /** The handling of field `idx` of `t`, up to the recursive calls. */
  function FieldStep(rf: RegisterFile, t: CType, dataOffset: nat, idx: nat, acc: Acc): (a: FieldAction)
    requires SizedTree(t) && idx < |Children(t)|
    ensures a.Stop? ==> Keeps(acc, a.result.acc, dataOffset)
    ensures a.Next? ==> Keeps(acc, a.acc, dataOffset)
    ensures a.Descend? ==> a.offset == dataOffset + Children(t)[idx].bitOffset / 8 && HasChildren(Children(t)[idx].ty)
  {
    SizedChildAt(t, 0, idx);
    var f := Children(t)[idx];
    var w := Width(f.ty);
    var childOff := f.bitOffset / 8;
    var off := dataOffset + childOff;
    if (childOff * 8) % (w * 8) != 0 then Stop(Extracted(false, acc.(isMemory := true)))
    else if NestedIntegerClass(f.ty) then
      match PlaceInteger(acc.intBytes, w, t.swift)
      case NoFit => Stop(Extracted(false, acc))
      case IntStep(src, ib) =>
        Next(Acc(ib, acc.fpBytes, acc.isMemory, CopyIfPossible(rf, src, off, w, acc.buffer)))
    else if IsFloatingPoint(f.ty) || f.ty.kind.Vector? then
      if w * 8 == 128 then Stop(Extracted(true, acc.(isMemory := true)))
      else if w * 8 == 64 then
        Next(Acc(acc.intBytes, acc.fpBytes + w, acc.isMemory, CopyIfPossible(rf, DoubleSource(acc.fpBytes), off, w, acc.buffer)))
      else if w * 8 == 32 then
        if off % 8 != 0 && off % 4 != 0 then Stop(Extracted(false, acc.(isMemory := true)))
        else
          var inGpr :=
            if off % 8 == 0 then idx + 1 < |Children(t)| && IsInteger(Children(t)[idx + 1].ty)
            else idx > 0 && IsInteger(Children(t)[idx - 1].ty);
          if inGpr then
            Next(Acc(acc.intBytes + w, acc.fpBytes, acc.isMemory, CopyIfPossible(rf, Some(GprSource(acc.intBytes)), off, w, acc.buffer)))
          else
            // in the middle of an eightbyte after a non-integer: the upper
            // half of the vector register
            var from := if off % 8 != 0 && idx > 0 then 4 else 0;
            Next(Acc(acc.intBytes, acc.fpBytes + w, acc.isMemory, CopyIfPossible(rf, SingleSource(acc.fpBytes, t.swift, from), off, w, acc.buffer)))
      else Next(acc)
    else if HasChildren(f.ty) then
      if f.ty.kind.SwiftEnum? then Stop(Extracted(false, acc))
      else Descend(off)
    else Next(acc)
  }

  /** The extraction of fields `idx..` of `t`. */
  function ExtractFields(rf: RegisterFile, t: CType, dataOffset: nat, idx: nat, acc: Acc): (r: Extracted)
    requires SizedTree(t) && idx <= |Children(t)|
    ensures |r.acc.buffer| == |acc.buffer|
    ensures acc.isMemory ==> r.acc.isMemory
    ensures r.acc.fpBytes >= acc.fpBytes
    ensures forall p :: 0 <= p < |acc.buffer| && p < dataOffset ==> r.acc.buffer[p] == acc.buffer[p]
    decreases t, 0, |Children(t)| - idx
  {
    if idx == |Children(t)| then Extracted(true, acc)
    else
      SizedChildAt(t, 0, idx);
      match FieldStep(rf, t, dataOffset, idx, acc)
      case Stop(r) => r
      case Next(a) => ExtractFields(rf, t, dataOffset, idx + 1, a)
      case Descend(off) =>
        var inner := ExtractBytesFromRegisters(rf, Children(t)[idx].ty, off, acc);
        if !inner.ok then inner
        else ExtractFields(rf, t, dataOffset, idx + 1, inner.acc)
  }

  /** A flat aggregate of builtin integers and pointers, each of known
      non-zero size and aligned to it. */
  predicate FlatIntegers(t: CType)
  {
    forall k :: 0 <= k < |Children(t)| ==>
      && (IsInteger(Children(t)[k].ty) || IsPointer(Children(t)[k].ty))
      && Width(Children(t)[k].ty) > 0
      && (Children(t)[k].bitOffset / 8 * 8) % (Width(Children(t)[k].ty) * 8) == 0
  }

  /** On a flat aggregate of integers, the extraction and the main loop over
      the aggregate's fields agree: whenever the main loop finishes, the
      extraction succeeds with the same counters and bytes. */
  lemma {:induction false} ExtractAgreesWithMainLoop(rf: RegisterFile, t: CType, idx: nat, acc: Acc)
    requires SizedTree(t) && FlatIntegers(t) && !t.swift && idx <= |Children(t)|
    requires GoodLeaves(PrimitiveLeaves(t, 0, 0))
    requires ClassifyLeaves(rf, PrimitiveLeaves(t, 0, 0), false, ByCounter, idx, acc).Finished?
    ensures ExtractFields(rf, t, 0, idx, acc)
         == Extracted(true, ClassifyLeaves(rf, PrimitiveLeaves(t, 0, 0), false, ByCounter, idx, acc).acc)
    decreases |Children(t)| - idx
  {
    var leaves := PrimitiveLeaves(t, 0, 0);
    if idx < |Children(t)| {
      var f := Children(t)[idx];
      var w := Width(f.ty);
      assert leaves[idx] == Leaf(f.bitOffset / 8, f.ty);
      assert IntegerClass(f.ty) && NestedIntegerClass(f.ty);
      var step := PlaceInteger(acc.intBytes, w, false);
      assert MainStep(leaves, idx, false, acc.intBytes, acc.fpBytes, ByCounter)
          == if step.NoFit? then Abandon else Copy(step.src, step.intBytes, acc.fpBytes);
      assert step.IntStep?;
      var copied := CopyField(rf, step.src, f.bitOffset / 8, w, acc.buffer);
      assert copied.Some?;
      var next := Acc(step.intBytes, acc.fpBytes, acc.isMemory, copied.value);
      assert FieldStep(rf, t, 0, idx, acc) == Next(next);
      assert ClassifyLeaves(rf, leaves, false, ByCounter, idx, acc) == ClassifyLeaves(rf, leaves, false, ByCounter, idx + 1, next);
      assert CopyIfPossible(rf, step.src, f.bitOffset / 8, w, acc.buffer) == copied.value;
      assert ExtractFields(rf, t, 0, idx, acc) == ExtractFields(rf, t, 0, idx + 1, next);
      ExtractAgreesWithMainLoop(rf, t, idx + 1, next);
    }
  }
}
