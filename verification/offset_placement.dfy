/** Integer fields of a C aggregate returned in rax:rdx, located by their own
    offsets: the recovered buffer is the aggregate's image, each field's
    bytes taken from the same position of the sixteen bytes rax:rdx, and
    the padding between fields zero. */
module OffsetPlacement {
  import opened Base
  import opened Registers
  import opened Machine
  import opened Types
  import opened SimpleReturn
  import opened AggregateReturn

  /** The sixteen bytes of rax followed by rdx. */
  function RaxRdx(rf: RegisterFile): (r: seq<byte>)
    requires RAX in rf.gpr && RDX in rf.gpr
    ensures |r| == 16
    ensures DecodeLE(r[..8]) == rf.gpr[RAX] && DecodeLE(r[8..]) == rf.gpr[RDX]
  {
    var r := Word(rf.gpr[RAX]) + Word(rf.gpr[RDX]);
    WordDecodes(rf.gpr[RAX]);
    WordDecodes(rf.gpr[RDX]);
    assert r[..8] == Word(rf.gpr[RAX]) && r[8..] == Word(rf.gpr[RDX]);
    r
  }

  /** An integer-class field that lies within one of the two eightbytes. */
  predicate InEightbyte(l: Leaf)
  {
    IntegerClass(l.ty) && l.offset < 16 && l.offset % 8 + Width(l.ty) <= 8
  }

  /** Byte `p` belongs to one of the first `n` fields. */
  predicate Covered(leaves: seq<Leaf>, n: nat, p: int)
    requires n <= |leaves|
  {
    n > 0 && (Covered(leaves, n - 1, p) || leaves[n - 1].offset <= p < leaves[n - 1].offset + Width(leaves[n - 1].ty))
  }

  lemma CoveredByField(leaves: seq<Leaf>, n: nat, k: nat, p: int)
    requires k < n <= |leaves|
    requires leaves[k].offset <= p < leaves[k].offset + Width(leaves[k].ty)
    ensures Covered(leaves, n, p)
    decreases n
  {
    if k < n - 1 {
      CoveredByField(leaves, n - 1, k, p);
    }
  }

  /** The buffer holds the bytes of rax:rdx at every position covered by the
      first `n` fields, and zero everywhere else. */
  predicate Gathered(buf: seq<byte>, leaves: seq<Leaf>, n: nat, regs: seq<byte>)
    requires n <= |leaves| && |buf| == 16 && |regs| == 16
  {
    forall p :: 0 <= p < 16 ==> buf[p] == (if Covered(leaves, n, p) then regs[p] else 0)
  }

  /** The bytes an in-eightbyte field is copied from are those at its own
      offset in rax:rdx. */
  lemma SourceIsOwnOffset(rf: RegisterFile, l: Leaf)
    requires RAX in rf.gpr && RDX in rf.gpr && InEightbyte(l)
    ensures var s := EightbyteSource(l.offset, Width(l.ty));
      && s.Some?
      && s.value.from + Width(l.ty) <= |RegisterData(rf, s.value.reg)|
      && RegisterData(rf, s.value.reg)[s.value.from .. s.value.from + Width(l.ty)]
         == RaxRdx(rf)[l.offset .. l.offset + Width(l.ty)]
  {
    var w := Width(l.ty);
    var a, d := Word(rf.gpr[RAX]), Word(rf.gpr[RDX]);
    assert RaxRdx(rf) == a + d;
    if l.offset < 8 {
      assert EightbyteSource(l.offset, w) == Some(Source(RAX, l.offset));
      SliceOfLeft(a, d, l.offset, l.offset + w);
    } else {
      assert EightbyteSource(l.offset, w) == Some(Source(RDX, l.offset - 8));
      SliceOfRight(a, d, l.offset, l.offset + w);
    }
  }

  lemma SliceOfLeft(a: seq<byte>, d: seq<byte>, i: nat, j: nat)
    requires i <= j <= |a|
    ensures (a + d)[i .. j] == a[i .. j]
  {
  }

  lemma SliceOfRight(a: seq<byte>, d: seq<byte>, i: nat, j: nat)
    requires |a| <= i <= j <= |a| + |d|
    ensures (a + d)[i .. j] == d[i - |a| .. j - |a|]
  {
  }

  /** Copying one more field keeps the buffer the image of the fields seen. */
  lemma GatherStep(buf: seq<byte>, leaves: seq<Leaf>, n: nat, regs: seq<byte>)
    requires n < |leaves| && |buf| == 16 && |regs| == 16
    requires leaves[n].offset + Width(leaves[n].ty) <= 16
    requires Gathered(buf, leaves, n, regs)
    ensures Gathered(Splice(buf, leaves[n].offset, regs[leaves[n].offset .. leaves[n].offset + Width(leaves[n].ty)]),
                     leaves, n + 1, regs)
  {
    var lo, hi := leaves[n].offset, leaves[n].offset + Width(leaves[n].ty);
    var out := Splice(buf, lo, regs[lo .. hi]);
    forall p | 0 <= p < 16
      ensures out[p] == (if Covered(leaves, n + 1, p) then regs[p] else 0)
    {
      if lo <= p < hi {
        assert out[lo .. hi][p - lo] == regs[lo .. hi][p - lo];
      }
    }
  }

  /** The main loop with fields located by offset, over fields that are all
      integers within one eightbyte, finishes in registers with the image of
      all of them. */
  lemma {:induction false} ByOffsetLoop(rf: RegisterFile, leaves: seq<Leaf>, idx: nat, acc: Acc)
    requires GoodLeaves(leaves) && idx <= |leaves|
    requires RAX in rf.gpr && RDX in rf.gpr
    requires forall k :: 0 <= k < |leaves| ==> InEightbyte(leaves[k])
    requires |acc.buffer| == 16 && !acc.isMemory && Gathered(acc.buffer, leaves, idx, RaxRdx(rf))
    ensures var out := ClassifyLeaves(rf, leaves, false, ByOffset, idx, acc);
      out.Finished? && !out.acc.isMemory && |out.acc.buffer| == 16
      && Gathered(out.acc.buffer, leaves, |leaves|, RaxRdx(rf))
    decreases |leaves| - idx
  {
    if idx < |leaves| {
      var l := leaves[idx];
      var w := Width(l.ty);
      var regs := RaxRdx(rf);
      var src := EightbyteSource(l.offset, w).value;
      assert InEightbyte(l);
      SourceIsOwnOffset(rf, l);
      assert MainStep(leaves, idx, false, acc.intBytes, acc.fpBytes, ByOffset) == Copy(Some(src), l.offset + w, acc.fpBytes);
      var buf := Splice(acc.buffer, l.offset, regs[l.offset .. l.offset + w]);
      assert CopyField(rf, Some(src), l.offset, w, acc.buffer) == Some(buf);
      GatherStep(acc.buffer, leaves, idx, regs);
      var next := Acc(l.offset + w, acc.fpBytes, false, buf);
      assert ClassifyLeaves(rf, leaves, false, ByOffset, idx, acc) == ClassifyLeaves(rf, leaves, false, ByOffset, idx + 1, next);
      ByOffsetLoop(rf, leaves, idx + 1, next);
    }
  }

  /** Every field of a gathered buffer holds the bytes at its own offset
      in rax:rdx. */
  lemma GatheredFields(buf: seq<byte>, leaves: seq<Leaf>, regs: seq<byte>)
    requires |buf| == 16 && |regs| == 16 && Gathered(buf, leaves, |leaves|, regs)
    ensures forall k, p :: 0 <= k < |leaves| && leaves[k].offset <= p < leaves[k].offset + Width(leaves[k].ty) && p < 16
              ==> buf[p] == regs[p]
  {
    forall k, p | 0 <= k < |leaves| && leaves[k].offset <= p < leaves[k].offset + Width(leaves[k].ty) && p < 16
      ensures buf[p] == regs[p]
    {
      CoveredByField(leaves, |leaves|, k, p);
    }
  }

  /** A C struct whose fields all lie within an eightbyte, in rax:rdx. */
  predicate IntegersInEightbytes(ty: CType)
  {
    && !ty.swift && ty.kind.Record? && Admitted(ty)
    && var leaves := FlattenAggregateType(ty, 0, 0).value;
       forall k :: 0 <= k < |leaves| ==> InEightbyte(leaves[k])
  }

  lemma ClassifyByOffset(rf: RegisterFile, ty: CType)
    requires IntegersInEightbytes(ty) && RAX in rf.gpr && RDX in rf.gpr
    ensures var out := Classify(rf, ty, ByOffset);
      && out.Finished? && !out.acc.isMemory && |out.acc.buffer| == 16
      && Gathered(out.acc.buffer, FlattenAggregateType(ty, 0, 0).value, |FlattenAggregateType(ty, 0, 0).value|, RaxRdx(rf))
  {
    var leaves := FlattenAggregateType(ty, 0, 0).value;
    var a0 := Start(leaves, 16);
    assert Gathered(a0.buffer, leaves, 0, RaxRdx(rf));
    ByOffsetLoop(rf, leaves, 0, a0);
  }

  /** The corrected recovery of a C struct whose fields are integers, none
      straddling the two eightbytes: the value is the struct's image in
      rax:rdx, each field at its own offset, padding zero. */
  lemma ByOffsetRecoversImage(t: Inferior, ty: CType)
    requires IntegersInEightbytes(ty)
    requires t.regs.Some? && RAX in t.regs.value.gpr && RDX in t.regs.value.gpr
    ensures var leaves := FlattenAggregateType(ty, 0, 0).value;
      var r := GetReturnValueByOffset(t, ty);
      && r.Some? && r.value.Bytes? && |r.value.data| == 16
      && Gathered(r.value.data, leaves, |leaves|, RaxRdx(t.regs.value))
  {
    ClassifyByOffset(t.regs.value, ty);
  }

  /** Each field starts where the previous one ends: no padding between
      fields (the first may still start past offset zero). */
  predicate Packed(leaves: seq<Leaf>)
  {
    forall k :: 0 < k < |leaves| ==> leaves[k].offset == leaves[k - 1].offset + Width(leaves[k - 1].ty)
  }

  /** Over packed in-eightbyte integer fields the running counter is the
      next field's offset, so locating fields by counter and by offset take
      every field from the same bytes. */
  lemma {:induction false} CounterIsOffsetLoop(rf: RegisterFile, leaves: seq<Leaf>, idx: nat, acc: Acc)
    requires GoodLeaves(leaves) && idx <= |leaves|
    requires forall k :: 0 <= k < |leaves| ==> InEightbyte(leaves[k])
    requires Packed(leaves)
    requires idx < |leaves| ==> acc.intBytes == leaves[idx].offset
    ensures ClassifyLeaves(rf, leaves, false, ByCounter, idx, acc) == ClassifyLeaves(rf, leaves, false, ByOffset, idx, acc)
    decreases |leaves| - idx
  {
    if idx < |leaves| {
      var l := leaves[idx];
      var step := CounterStepIsOffsetStep(leaves, idx, acc.fpBytes);
      var c := CopyThenLoop(rf, leaves, ByCounter, idx, acc, step);
      var o := CopyThenLoop(rf, leaves, ByOffset, idx, acc, step);
      var copy := CopyField(rf, step.src, l.offset, Width(l.ty), acc.buffer);
      if copy.Some? {
        var next := Acc(step.intBytes, step.fpBytes, acc.isMemory, copy.value);
        assert idx + 1 < |leaves| ==> leaves[idx + 1].offset == next.intBytes;
        CounterIsOffsetLoop(rf, leaves, idx + 1, next);
      }
    }
  }

  /** One turn of the C main loop over a field it copies: the copy, then
      the rest of the loop. */
  lemma CopyThenLoop(rf: RegisterFile, leaves: seq<Leaf>, rule: GprRule, idx: nat, acc: Acc, step: Step) returns (r: Outcome)
    requires idx < |leaves| && GoodLeaves(leaves)
    requires step.Copy? && MainStep(leaves, idx, false, acc.intBytes, acc.fpBytes, rule) == step
    ensures r == ClassifyLeaves(rf, leaves, false, rule, idx, acc)
    ensures r == match CopyField(rf, step.src, leaves[idx].offset, Width(leaves[idx].ty), acc.buffer)
      case None => Abandoned
      case Some(buf) => ClassifyLeaves(rf, leaves, false, rule, idx + 1, Acc(step.intBytes, step.fpBytes, acc.isMemory, buf))
  {
    r := ClassifyLeaves(rf, leaves, false, rule, idx, acc);
  }

  /** An in-eightbyte integer field met with the counter at its own offset
      is placed alike by counter and by offset. */
  lemma CounterStepIsOffsetStep(leaves: seq<Leaf>, idx: nat, fp: nat) returns (step: Step)
    requires idx < |leaves| && GoodLeaf(leaves[idx]) && InEightbyte(leaves[idx])
    ensures step == Copy(EightbyteSource(leaves[idx].offset, Width(leaves[idx].ty)), leaves[idx].offset + Width(leaves[idx].ty), fp)
    ensures MainStep(leaves, idx, false, leaves[idx].offset, fp, ByCounter) == step
    ensures MainStep(leaves, idx, false, leaves[idx].offset, fp, ByOffset) == step
  {
    var off, w := leaves[idx].offset, Width(leaves[idx].ty);
    step := Copy(EightbyteSource(off, w), off + w, fp);
    if off < 8 {
      assert PlaceInteger(off, w, false) == IntStep(Some(Source(RAX, off)), off + w);
    } else {
      assert PlaceInteger(off, w, false) == IntStep(Some(Source(RDX, off - 8)), off + w);
    }
  }

  /** The recovery as written agrees with the recovery by offset on a C
      struct of packed in-eightbyte integers: the counters start at the
      first field's offset, and no padding lets the counter fall behind. */
  lemma PackedAgrees(t: Inferior, ty: CType)
    requires IntegersInEightbytes(ty) && Packed(FlattenAggregateType(ty, 0, 0).value)
    ensures GetReturnValueObjectImpl(t, ty) == GetReturnValueByOffset(t, ty)
  {
    if t.regs.Some? {
      var leaves := FlattenAggregateType(ty, 0, 0).value;
      CounterIsOffsetLoop(t.regs.value, leaves, 0, Start(leaves, 16));
    }
  }

  /** Hence the recovery as written returns the struct's image for such
      structs. */
  lemma PackedRecoversImage(t: Inferior, ty: CType)
    requires IntegersInEightbytes(ty) && Packed(FlattenAggregateType(ty, 0, 0).value)
    requires t.regs.Some? && RAX in t.regs.value.gpr && RDX in t.regs.value.gpr
    ensures var leaves := FlattenAggregateType(ty, 0, 0).value;
      var r := GetReturnValueObjectImpl(t, ty);
      && r.Some? && r.value.Bytes? && |r.value.data| == 16
      && Gathered(r.value.data, leaves, |leaves|, RaxRdx(t.regs.value))
  {
    PackedAgrees(t, ty);
    ByOffsetRecoversImage(t, ty);
  }
}
