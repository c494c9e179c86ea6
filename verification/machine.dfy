/** The inferior's state as the ABI logic sees it through its collaborators:
    a register context (which may be missing) whose registers can be read
    and, when writable, written; and target memory, byte-addressed, whose
    writes may fail. */
module Machine {
  import opened Base
  import opened Registers

  /** The 16 bytes of a vector register. */
  type Vec16 = s: seq<byte> | |s| == 16 witness seq(16, _ => 0)

  /** A register context: general-purpose register values, vector register
      contents, and the registers a write to succeeds on. A register absent
      from its map cannot be read. */
  datatype RegisterFile = RegisterFile(gpr: map<Reg, u64>, vec: map<Reg, Vec16>, writable: set<Reg>)

  /** Target memory: the readable bytes, and the addresses a write succeeds on. */
  datatype Memory = Memory(bytes: map<int, byte>, writable: set<int>)

  /** A stopped thread: its register context, if any, and its process memory. */
  datatype Inferior = Inferior(regs: Option<RegisterFile>, mem: Memory)

  /** Reading a register as an unsigned integer yields the fail value 0 when
      the read fails. */
  function ReadUnsigned(rf: RegisterFile, r: Reg): (v: u64)
    ensures r in rf.gpr ==> v == rf.gpr[r]
    ensures r !in rf.gpr ==> v == 0
  {
    if r in rf.gpr then rf.gpr[r] else 0
  }

  /** Writing an unsigned value succeeds exactly on writable registers and
      changes that register only. */
  function WriteUnsigned(rf: RegisterFile, r: Reg, v: u64): (res: Option<RegisterFile>)
    ensures res.Some? <==> r in rf.writable
    ensures res.Some? ==> ReadUnsigned(res.value, r) == v
    ensures res.Some? ==> forall q :: q != r ==> ReadUnsigned(res.value, q) == ReadUnsigned(rf, q)
    ensures res.Some? ==> res.value.vec == rf.vec && res.value.writable == rf.writable
  {
    if r in rf.writable then Some(rf.(gpr := rf.gpr[r := v])) else None
  }

  /** The raw bytes of a register as a value read captures them: the eight
      little-endian bytes of a general-purpose register, the sixteen bytes of
      a vector register, or nothing when the read fails. */
  function RegisterData(rf: RegisterFile, r: Reg): (d: seq<byte>)
    ensures !IsVectorRegister(r) && r in rf.gpr ==> d == Word(rf.gpr[r])
    ensures IsVectorRegister(r) && r in rf.vec ==> d == rf.vec[r]
    ensures d == [] <==> (if IsVectorRegister(r) then r !in rf.vec else r !in rf.gpr)
  {
    if IsVectorRegister(r) then (if r in rf.vec then rf.vec[r] else [])
    else if r in rf.gpr then Word(rf.gpr[r])
    else []
  }

  /** Every address of `[addr, addr + n)` is writable. */
  predicate WritableRange(m: Memory, addr: int, n: nat)
  {
    forall a :: addr <= a < addr + n ==> a in m.writable
  }

  /** Every address of `[addr, addr + n)` is readable. */
  predicate ReadableRange(m: Memory, addr: int, n: nat)
  {
    forall a :: addr <= a < addr + n ==> a in m.bytes
  }

  /** `bytes` with `w` stored from `addr` upwards. */
  function Store(bytes: map<int, byte>, addr: int, w: seq<byte>): (r: map<int, byte>)
    ensures forall a :: (a < addr || a >= addr + |w|) ==> (a in r <==> a in bytes) && (a in bytes ==> r[a] == bytes[a])
    ensures forall a :: addr <= a < addr + |w| ==> a in r && r[a] == w[a - addr]
    decreases |w|
  {
    if w == [] then bytes else Store(bytes[addr := w[0]], addr + 1, w[1..])
  }

  /** Writing a byte string succeeds only if every one of its addresses is
      writable, and then touches no other address. */
  function WriteBytes(m: Memory, addr: int, w: seq<byte>): (res: Option<Memory>)
    ensures res.Some? <==> WritableRange(m, addr, |w|)
    ensures res.Some? ==> res.value.writable == m.writable
    ensures res.Some? ==> forall a :: (a < addr || a >= addr + |w|) ==>
      (a in res.value.bytes <==> a in m.bytes) && (a in m.bytes ==> res.value.bytes[a] == m.bytes[a])
    ensures res.Some? ==> forall a :: addr <= a < addr + |w| ==> a in res.value.bytes && res.value.bytes[a] == w[a - addr]
  {
    if WritableRange(m, addr, |w|) then Some(m.(bytes := Store(m.bytes, addr, w))) else None
  }

  /** Writing a pointer-sized word stores its eight little-endian bytes. */
  function WritePointer(m: Memory, addr: int, v: u64): (res: Option<Memory>)
    ensures res.Some? <==> WritableRange(m, addr, 8)
    ensures res.Some? ==> res.value.writable == m.writable
    ensures res.Some? ==> forall a :: (a < addr || a >= addr + 8) ==>
      (a in res.value.bytes <==> a in m.bytes) && (a in m.bytes ==> res.value.bytes[a] == m.bytes[a])
    ensures res.Some? ==> forall a :: addr <= a < addr + 8 ==> a in res.value.bytes && res.value.bytes[a] == Word(v)[a - addr]
  {
    WriteBytes(m, addr, Word(v))
  }

  /** The `n` bytes at `addr`, or nothing if any of them is unreadable. */
  function ReadBytes(m: Memory, addr: int, n: nat): (res: Option<seq<byte>>)
    ensures res.Some? <==> ReadableRange(m, addr, n)
    ensures res.Some? ==> |res.value| == n && forall i :: 0 <= i < n ==> res.value[i] == m.bytes[addr + i]
  {
    if ReadableRange(m, addr, n) then
      Some(seq(n, i requires 0 <= i < n => m.bytes[addr + i]))
    else None
  }

  /** A stored pointer reads back as the same eight bytes. */
  lemma ReadBackPointer(m: Memory, addr: int, v: u64)
    requires WritePointer(m, addr, v).Some?
    ensures ReadBytes(WritePointer(m, addr, v).value, addr, 8) == Some(Word(v))
  {
    var m' := WritePointer(m, addr, v).value;
    assert ReadableRange(m', addr, 8);
    var r := ReadBytes(m', addr, 8);
    assert r.value == Word(v);
  }
}
