/** Return values that travel in a single register class: integers and
    pointers in rax, floating-point scalars in xmm0, vectors in xmm0 and
    xmm1. Also the reverse direction: forcing a return value into those
    registers. */
module SimpleReturn {
  import opened Base
  import opened Registers
  import opened Machine
  import opened Types

  /** A recovered return value: an integer (already sign- or
      zero-extended), raw bytes to interpret with the return type, or the
      address of a value in memory. */
  datatype ReturnValue = Scalar(v: int) | Bytes(data: seq<byte>) | MemoryAt(addr: u64)

  /** The `n` bytes of the vector registers xmm0 and xmm1, laid end to end,
      that a vector of size `n` occupies; nothing if a register it needs
      cannot be read. */
  function VectorBytes(rf: RegisterFile, n: nat): (r: Option<seq<byte>>)
    requires n <= 32
    ensures r.Some? <==> XMM0 in rf.vec && (n > 16 ==> XMM1 in rf.vec)
    ensures r.Some? ==> |r.value| == n
    ensures r.Some? && n <= 16 ==> r.value == rf.vec[XMM0][..n]
    ensures r.Some? && n > 16 ==> r.value[..16] == rf.vec[XMM0] && r.value[16..] == rf.vec[XMM1][..n - 16]
  {
    if XMM0 !in rf.vec then None
    else if n <= 16 then Some(rf.vec[XMM0][..n])
    else if XMM1 !in rf.vec then None
    else Some(rf.vec[XMM0] + rf.vec[XMM1][..n - 16])
  }

  /** The value a function returning `ty` left in the registers of `t`, when
      `ty` is an integer, floating-point, pointer or vector type. */
  function GetReturnValueObjectSimple(t: Inferior, ty: CType): (r: Option<ReturnValue>)
    ensures t.regs.None? ==> r.None?
    // integers: the low bytes of rax, as a value of the return type
    ensures t.regs.Some? && IsInteger(ty) ==>
      (r.Some? <==> ty.byteSize in {Some(1), Some(2), Some(4), Some(8)})
    ensures r.Some? && IsInteger(ty) ==>
      && r.value.Scalar?
      && Representable(r.value.v, 8 * ty.byteSize.value, ty.kind.signed)
      && r.value.v % Pow2(8 * ty.byteSize.value) == ReadUnsigned(t.regs.value, RAX) % Pow2(8 * ty.byteSize.value)
    // pointers: all of rax
    ensures t.regs.Some? && IsPointer(ty) ==> r == Some(Scalar(ReadUnsigned(t.regs.value, RAX)))
    // floats: the leading bytes of xmm0, for float and double only
    ensures t.regs.Some? && IsFloatingPoint(ty) ==>
      (r.Some? <==> !ty.kind.complex && ty.byteSize in {Some(4), Some(8)} && XMM0 in t.regs.value.vec)
    ensures r.Some? && IsFloatingPoint(ty) ==>
      r == Some(Bytes(t.regs.value.vec[XMM0][..ty.byteSize.value]))
    // vectors: up to two vector registers' worth
    ensures t.regs.Some? && ty.kind.Vector? ==>
      (r.Some? <==> && ty.byteSize.Some? && 0 < ty.byteSize.value <= 32
                    && XMM0 in t.regs.value.vec
                    && (ty.byteSize.value > 16 ==> XMM1 in t.regs.value.vec))
    ensures r.Some? && ty.kind.Vector? ==>
      r.value.Bytes? && |r.value.data| == ty.byteSize.value
      && r.value.data == (t.regs.value.vec[XMM0] + RegisterData(t.regs.value, XMM1))[..ty.byteSize.value]
    // nothing else is simple
    ensures !IsInteger(ty) && !IsPointer(ty) && !IsFloatingPoint(ty) && !ty.kind.Vector? ==> r.None?
  {
    match t.regs
    case None => None
    case Some(rf) =>
      match ty.kind
      case Int(signed) =>
        if ty.byteSize in {Some(1), Some(2), Some(4), Some(8)} then
          Some(Scalar(Reinterpret(ReadUnsigned(rf, RAX), 8 * ty.byteSize.value, signed)))
        else None
      case Float(complex) =>
        if !complex && ty.byteSize in {Some(4), Some(8)} && XMM0 in rf.vec then
          Some(Bytes(rf.vec[XMM0][..ty.byteSize.value]))
        else None
      case Ptr => Some(Scalar(ReadUnsigned(rf, RAX)))
      case Vector =>
        if ty.byteSize.Some? && 0 < ty.byteSize.value <= 32 then
          match VectorBytes(rf, ty.byteSize.value)
          case None => None
          case Some(bs) => Some(Bytes(bs))
        else None
      case _ => None
  }

  /** Why forcing a return value failed. */
  datatype SetError = EmptyValue | NullType | DataUnavailable | UnknownSize | OnlySimple

  datatype Status = Success | Failure(error: SetError)

  /** The value to return: its type, if valid, and its bytes, if the value
      can produce them. */
  datatype NewValue = NewValue(ty: Option<CType>, data: Option<seq<byte>>)

  datatype SetOutcome = SetOutcome(status: Status, regs: RegisterFile)

  /** `data` widened with zero bytes, or cut, to exactly `n` bytes. */
  function FitTo(data: seq<byte>, n: nat): (r: seq<byte>)
    ensures |r| == n
    ensures |data| <= n ==> r[..|data|] == data && forall i :: |data| <= i < n ==> r[i] == 0
    ensures |data| >= n ==> r == data[..n]
  {
    if |data| >= n then data[..n] else data + Zeros(n - |data|)
  }

  /** A value with a valid type whose bytes are available. */
  predicate Complete(v: Option<NewValue>)
  {
    v.Some? && v.value.ty.Some? && v.value.data.Some?
  }

  /** The categories whose return values can be set at all. */
  predicate IsSettable(ty: CType)
  {
    IsIntegerOrEnumeration(ty) || IsPointer(ty) || IsFloatingPoint(ty)
  }

  /** Makes the frame of `rf` return `v`: an integer or pointer of at most
      eight bytes goes into rax, a float of at most 64 bits into xmm0; every
      other value is refused. */
  function SetReturnValueObject(rf: RegisterFile, v: Option<NewValue>): (r: SetOutcome)
    ensures r.status.Success? ==> Complete(v)
    ensures v.None? ==> r == SetOutcome(Failure(EmptyValue), rf)
    ensures v.Some? && v.value.ty.None? ==> r == SetOutcome(Failure(NullType), rf)
    ensures r.status.Failure? && r.status.error != OnlySimple ==> r.regs == rf
    // integers and pointers: rax receives the little-endian value
    ensures Complete(v) && (IsIntegerOrEnumeration(v.value.ty.value) || IsPointer(v.value.ty.value)) ==>
      (r.status.Success? <==> |v.value.data.value| <= 8 && RAX in rf.writable)
    ensures r.status.Success? && (IsIntegerOrEnumeration(v.value.ty.value) || IsPointer(v.value.ty.value)) ==>
      && ReadUnsigned(r.regs, RAX) == DecodeLE(v.value.data.value)
      && (forall q :: q != RAX ==> ReadUnsigned(r.regs, q) == ReadUnsigned(rf, q))
      && r.regs.vec == rf.vec
    // floats: xmm0 receives the bytes, zero-filled to sixteen
    ensures Complete(v) && IsFloatingPoint(v.value.ty.value) ==>
      (r.status.Success? <==> && !v.value.ty.value.kind.complex
                              && v.value.ty.value.byteSize.Some?
                              && v.value.ty.value.byteSize.value <= 8)
    ensures r.status.Success? && IsFloatingPoint(v.value.ty.value) ==>
      && r.regs.gpr == rf.gpr
      && (XMM0 in rf.writable ==> r.regs.vec == rf.vec[XMM0 := FitTo(v.value.data.value, 16)])
      && (XMM0 !in rf.writable ==> r.regs == rf)
    // no other type can be set
    ensures v.Some? && v.value.ty.Some? && !IsSettable(v.value.ty.value) ==> r == SetOutcome(Failure(OnlySimple), rf)
  {
    match v
    case None => SetOutcome(Failure(EmptyValue), rf)
    case Some(nv) =>
      match nv.ty
      case None => SetOutcome(Failure(NullType), rf)
      case Some(ty) =>
        if IsIntegerOrEnumeration(ty) || IsPointer(ty) then
          match nv.data
          case None => SetOutcome(Failure(DataUnavailable), rf)
          case Some(data) =>
            if |data| <= 8 then
              var raw := DecodeLE(data);
              assert raw < TWO_TO_64 by {
                Pow2Monotone(8 * |data|, 64);
                Pow2Of64();
              }
              match WriteUnsigned(rf, RAX, raw)
              case Some(rf') => SetOutcome(Success, rf')
              case None => SetOutcome(Failure(OnlySimple), rf)
            else
              // the "longer than 64 bits" complaint is replaced by the
              // generic one before it is reported
              SetOutcome(Failure(OnlySimple), rf)
        else if IsFloatingPoint(ty) then
          if ty.kind.complex then SetOutcome(Failure(OnlySimple), rf)
          else if ty.byteSize.None? then SetOutcome(Failure(UnknownSize), rf)
          else if 8 * ty.byteSize.value <= 64 then
            match nv.data
            case None => SetOutcome(Failure(DataUnavailable), rf)
            case Some(data) =>
              // the register write's own outcome is not consulted
              var rf' := if XMM0 in rf.writable then rf.(vec := rf.vec[XMM0 := FitTo(data, 16)]) else rf;
              SetOutcome(Success, rf')
          else SetOutcome(Failure(OnlySimple), rf)
        else
          SetOutcome(Failure(OnlySimple), rf)
  }

  /** An integer of 1, 2, 4 or 8 bytes set as the return value reads back
      as the same number. */
  lemma SetThenGetInteger(rf: RegisterFile, mem: Memory, ty: CType, data: seq<byte>)
    requires ty.kind.Int? && ty.byteSize == Some(|data|) && |data| in {1, 2, 4, 8}
    requires RAX in rf.writable
    ensures var out := SetReturnValueObject(rf, Some(NewValue(Some(ty), Some(data))));
      && out.status.Success?
      && GetReturnValueObjectSimple(Inferior(Some(out.regs), mem), ty)
         == Some(Scalar(Reinterpret(DecodeLE(data), 8 * |data|, ty.kind.signed)))
  {
    var out := SetReturnValueObject(rf, Some(NewValue(Some(ty), Some(data))));
    var n := 8 * |data|;
    var raw := DecodeLE(data);
    assert ReadUnsigned(out.regs, RAX) == raw;
    var got := GetReturnValueObjectSimple(Inferior(Some(out.regs), mem), ty);
    var want := Reinterpret(raw, n, ty.kind.signed);
    RepresentableUnique(got.value.v, want, n, ty.kind.signed);
  }

  /** An unsigned integer reads back unchanged, its bytes decoded. */
  lemma SetThenGetUnsigned(rf: RegisterFile, mem: Memory, ty: CType, data: seq<byte>)
    requires ty.kind == Int(false) && ty.byteSize == Some(|data|) && |data| in {1, 2, 4, 8}
    requires RAX in rf.writable
    ensures var out := SetReturnValueObject(rf, Some(NewValue(Some(ty), Some(data))));
      GetReturnValueObjectSimple(Inferior(Some(out.regs), mem), ty) == Some(Scalar(DecodeLE(data)))
  {
    SetThenGetInteger(rf, mem, ty, data);
    var n := 8 * |data|;
    ModUnique(DecodeLE(data), Pow2(n), 0, DecodeLE(data));
    RepresentableUnique(Reinterpret(DecodeLE(data), n, false), DecodeLE(data), n, false);
  }

  /** A pointer set as the return value reads back as the same address. */
  lemma SetThenGetPointer(rf: RegisterFile, mem: Memory, ty: CType, addr: u64)
    requires ty.kind.Ptr?
    requires RAX in rf.writable
    ensures var out := SetReturnValueObject(rf, Some(NewValue(Some(ty), Some(Word(addr)))));
      GetReturnValueObjectSimple(Inferior(Some(out.regs), mem), ty) == Some(Scalar(addr))
  {
    WordDecodes(addr);
  }

  /** A float or double set as the return value reads back as the same bytes. */
  lemma SetThenGetFloat(rf: RegisterFile, mem: Memory, ty: CType, data: seq<byte>)
    requires ty.kind == Float(false) && ty.byteSize == Some(|data|) && |data| in {4, 8}
    requires XMM0 in rf.writable
    ensures var out := SetReturnValueObject(rf, Some(NewValue(Some(ty), Some(data))));
      && out.status.Success?
      && GetReturnValueObjectSimple(Inferior(Some(out.regs), mem), ty) == Some(Bytes(data))
  {
    var out := SetReturnValueObject(rf, Some(NewValue(Some(ty), Some(data))));
    assert out.regs.vec[XMM0] == FitTo(data, 16);
  }

  /** The width and signedness of the return type decide how rax is read:
      with all bits set in its low half, a 4-byte return is -1 when signed
      and 4294967295 when unsigned. */
  lemma LowHalfAllOnes(rf: RegisterFile, mem: Memory, signed: bool)
    requires ReadUnsigned(rf, RAX) == 0xFFFF_FFFF
    ensures GetReturnValueObjectSimple(Inferior(Some(rf), mem), CType(Some(4), Int(signed), false, true))
      == Some(Scalar(if signed then -1 else 0xFFFF_FFFF))
  {
    var got := GetReturnValueObjectSimple(Inferior(Some(rf), mem), CType(Some(4), Int(signed), false, true));
    assert got.Some? && got.value.Scalar?;
    AllOnesIs(got.value.v, signed);
  }

  /** A 32-bit value of the given signedness whose bits are all set. */
  lemma AllOnesIs(v: int, signed: bool)
    requires Representable(v, 32, signed)
    requires v % Pow2(32) == 0xFFFF_FFFF % Pow2(32)
    ensures v == if signed then -1 else 0xFFFF_FFFF
  {
    Pow2Of32();
    var want := if signed then -1 else 0xFFFF_FFFF;
    assert want % 0x1_0000_0000 == 0xFFFF_FFFF by {
      ModUnique(0xFFFF_FFFF, 0x1_0000_0000, 0, 0xFFFF_FFFF);
      ModUnique(-1, 0x1_0000_0000, -1, 0xFFFF_FFFF);
    }
    RepresentableUnique(v, want, 32, signed);
  }
}
