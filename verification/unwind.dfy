/** The two architectural unwind plans the plugin supplies: one valid at the
    first instruction of a function, and a fallback for frames that keep the
    standard frame-pointer chain. Each plan is a single row that says where
    the canonical frame address (CFA) is and where the caller's registers
    can be found relative to it. Registers are numbered as in DWARF. */
module Unwind {
  import opened Base
  import opened Registers
  import opened Machine
  import opened CallSetup
  import Arguments

  /** A three-valued flag whose third value means "not yet determined". */
  datatype LazyBool = Calculate | Yes | No

  /** The numbering scheme a plan's register numbers use. */
  datatype RegisterKind = InvalidKind | DwarfKind

  /** The CFA rule of a row: a register's value plus a signed offset. */
  datatype CfaValue = Unspecified | RegisterPlusOffset(reg: nat, offset: int)

  /** Where the caller's value of a register is: saved in memory at the CFA
      plus an offset, or equal to the CFA plus an offset. */
  datatype Location = AtCFAPlusOffset(offset: int) | IsCFAPlusOffset(offset: int)

  /** A row: the code offset from which it applies, its CFA rule and the
      locations of the registers it describes. */
  datatype Row = Row(offset: int, cfa: CfaValue, locations: map<nat, Location>)

  datatype Plan = Plan(
    kind: RegisterKind,
    rows: seq<Row>,
    sourceName: string,
    sourcedFromCompiler: LazyBool,
    validAtAllInstructions: LazyBool,
    forSignalTrap: LazyBool)

  const EmptyRow: Row := Row(0, Unspecified, map[])

  /** A plan after it has been cleared. */
  const ClearedPlan: Plan := Plan(InvalidKind, [], "", Calculate, Calculate, Calculate)

  const ENTRY_PLAN_NAME: string := "x86_64 at-func-entry default"
  const DEFAULT_PLAN_NAME: string := "x86_64 default unwind plan"

  /** Records a register's location; without `canReplace` an existing entry
      is kept. */
  function SetLocation(row: Row, reg: nat, loc: Location, canReplace: bool): (r: Row)
    ensures r.offset == row.offset && r.cfa == row.cfa
    ensures r.locations.Keys == row.locations.Keys + {reg}
    ensures r.locations[reg] == if canReplace || reg !in row.locations then loc else row.locations[reg]
    ensures forall n :: n in row.locations && n != reg ==> r.locations[n] == row.locations[n]
  {
    if !canReplace && reg in row.locations then row
    else row.(locations := row.locations[reg := loc])
  }

  /** The plan valid at a function's first instruction: the return address
      has just been pushed, so the CFA is rsp + 8, the caller's pc is saved
      at CFA - 8 and the caller's rsp is the CFA itself. */
  function CreateFunctionEntryUnwindPlan(): (p: Plan)
    ensures p.kind == DwarfKind && |p.rows| == 1
    ensures p.rows[0].cfa == RegisterPlusOffset(DWARF_RSP, 8)
    ensures p.rows[0].locations.Keys == {DWARF_RIP, DWARF_RSP}
    ensures p.rows[0].locations[DWARF_RIP] == AtCFAPlusOffset(-8)
    ensures p.rows[0].locations[DWARF_RSP] == IsCFAPlusOffset(0)
    ensures p.sourceName == ENTRY_PLAN_NAME && p.sourcedFromCompiler == No
    // the entry plan leaves the other two flags undetermined
    ensures p.validAtAllInstructions == Calculate && p.forSignalTrap == Calculate
  {
    var row := EmptyRow.(cfa := RegisterPlusOffset(DWARF_RSP, 8));
    var row := SetLocation(row, DWARF_RIP, AtCFAPlusOffset(-8), false);
    var row := SetLocation(row, DWARF_RSP, IsCFAPlusOffset(0), true);
    ClearedPlan.(kind := DwarfKind, rows := [row], sourceName := ENTRY_PLAN_NAME, sourcedFromCompiler := No)
  }

  /** The fallback plan for frames built by `push rbp; mov rbp, rsp`: the
      CFA is rbp + 16, the caller's rbp is saved at CFA - 16, its pc at
      CFA - 8, and its rsp is the CFA. */
  function CreateDefaultUnwindPlan(): (p: Plan)
    ensures p.kind == DwarfKind && |p.rows| == 1
    ensures p.rows[0].offset == 0
    ensures p.rows[0].cfa == RegisterPlusOffset(DWARF_RBP, 16)
    ensures p.rows[0].locations.Keys == {DWARF_RBP, DWARF_RIP, DWARF_RSP}
    ensures p.rows[0].locations[DWARF_RBP] == AtCFAPlusOffset(-16)
    ensures p.rows[0].locations[DWARF_RIP] == AtCFAPlusOffset(-8)
    ensures p.rows[0].locations[DWARF_RSP] == IsCFAPlusOffset(0)
    ensures p.sourceName == DEFAULT_PLAN_NAME && p.sourcedFromCompiler == No
    ensures p.validAtAllInstructions == No && p.forSignalTrap == No
  {
    var ptrSize := 8;
    var row := EmptyRow.(cfa := RegisterPlusOffset(DWARF_RBP, 2 * ptrSize), offset := 0);
    var row := SetLocation(row, DWARF_RBP, AtCFAPlusOffset(ptrSize * -2), true);
    var row := SetLocation(row, DWARF_RIP, AtCFAPlusOffset(ptrSize * -1), true);
    var row := SetLocation(row, DWARF_RSP, IsCFAPlusOffset(0), true);
    ClearedPlan.(kind := DwarfKind, rows := [row], sourceName := DEFAULT_PLAN_NAME, sourcedFromCompiler := No,
                 validAtAllInstructions := No, forSignalTrap := No)
  }

  /** The registers of the table in DWARF-number order, 0 to 19. */
  const DwarfOrder: seq<Reg> :=
    [RAX, RDX, RCX, RBX, RSI, RDI, RBP, RSP, R8, R9, R10, R11, R12, R13, R14, R15, RIP, XMM0, XMM1, XMM2]

  /** The register with DWARF number `n`, if the table has one. */
  function DwarfRegister(n: nat): (r: Option<Reg>)
    ensures r.Some? ==> Info(r.value).dwarf == Some(n)
    ensures r.None? ==> forall reg :: Info(reg).dwarf != Some(n)
  {
    if n < |DwarfOrder| then Some(DwarfOrder[n]) else None
  }

  /** The CFA a row computes from the frame's registers, in 64-bit unsigned
      arithmetic. */
  function Cfa(row: Row, rf: RegisterFile): (a: Option<u64>)
    ensures a.Some? <==> row.cfa.RegisterPlusOffset? && DwarfRegister(row.cfa.reg).Some?
  {
    match row.cfa
    case Unspecified => None
    case RegisterPlusOffset(n, off) =>
      match DwarfRegister(n)
      case None => None
      case Some(r) => Some((ReadUnsigned(rf, r) + off) % TWO_TO_64)
  }

  /** The caller's value of DWARF register `n` as the row recovers it from
      the frame's registers and memory; nothing for a register the row does
      not describe or a save slot that cannot be read. */
  function RecoverRegister(row: Row, rf: RegisterFile, mem: Memory, n: nat): (v: Option<u64>)
    ensures n !in row.locations || Cfa(row, rf).None? ==> v.None?
  {
    if n !in row.locations then None
    else
      match Cfa(row, rf)
      case None => None
      case Some(cfa) =>
        match row.locations[n]
        case IsCFAPlusOffset(off) => Some((cfa + off) % TWO_TO_64)
        case AtCFAPlusOffset(off) =>
          match ReadBytes(mem, (cfa + off) % TWO_TO_64, 8)
          case None => None
          // eight bytes always decode below 2^64
          case Some(bs) => Some(DecodeLE(bs) % TWO_TO_64)
  }

  /** Moving an address by `k` and back again returns it. */
  lemma WrapBack(c: u64, k: int)
    ensures ((c + k) % TWO_TO_64 - k) % TWO_TO_64 == c
  {
    Arguments.ModShift(c + k, -k);
  }

  /** An address already in range does not wrap. */
  lemma NoWrap(x: int)
    requires 0 <= x < TWO_TO_64
    ensures x % TWO_TO_64 == x
  {
  }

  /** The CFA of a row whose rule is a register plus an offset. */
  lemma CfaOfRule(row: Row, rf: RegisterFile, d: nat, k: int, r: Reg)
    requires row.cfa == RegisterPlusOffset(d, k) && DwarfRegister(d) == Some(r)
    ensures Cfa(row, rf) == Some((ReadUnsigned(rf, r) + k) % TWO_TO_64)
  {
  }

  /** A register the row places at the CFA plus an offset gets that value. */
  lemma RecoverComputed(row: Row, rf: RegisterFile, mem: Memory, n: nat, cfa: u64, off: int)
    requires Cfa(row, rf) == Some(cfa)
    requires n in row.locations && row.locations[n] == IsCFAPlusOffset(off)
    ensures RecoverRegister(row, rf, mem, n) == Some((cfa + off) % TWO_TO_64)
  {
  }

  /** A register the row saves at the CFA plus an offset gets the value
      decoded from the save slot. */
  lemma RecoverFromSlot(row: Row, rf: RegisterFile, mem: Memory, n: nat, cfa: u64, off: int)
    requires Cfa(row, rf) == Some(cfa)
    requires n in row.locations && row.locations[n] == AtCFAPlusOffset(off)
    requires ReadableRange(mem, (cfa + off) % TWO_TO_64, 8)
    ensures RecoverRegister(row, rf, mem, n) == Some(DecodeLE(ReadBytes(mem, (cfa + off) % TWO_TO_64, 8).value) % TWO_TO_64)
  {
  }

  lemma DecodeStoredWord(mem: Memory, a: int, x: u64)
    requires ReadBytes(mem, a, 8) == Some(Word(x))
    ensures DecodeLE(ReadBytes(mem, a, 8).value) % TWO_TO_64 == x
  {
    WordDecodes(x);
  }

  /** A register the row saves at the CFA plus an offset gets the word
      stored there. */
  lemma RecoverSaved(row: Row, rf: RegisterFile, mem: Memory, n: nat, cfa: u64, off: int, x: u64)
    requires Cfa(row, rf) == Some(cfa)
    requires n in row.locations && row.locations[n] == AtCFAPlusOffset(off)
    requires ReadBytes(mem, (cfa + off) % TWO_TO_64, 8) == Some(Word(x))
    ensures RecoverRegister(row, rf, mem, n) == Some(x)
  {
    RecoverFromSlot(row, rf, mem, n, cfa, off);
    DecodeStoredWord(mem, (cfa + off) % TWO_TO_64, x);
  }

  /** The entry plan's pc rule on a frame whose stack holds `ret` at the
      stack pointer `c` finds `ret`. */
  lemma EntryRulePc(row: Row, rf: RegisterFile, mem: Memory, c: u64, ret: u64)
    requires row.cfa == RegisterPlusOffset(DWARF_RSP, 8)
    requires DWARF_RIP in row.locations && row.locations[DWARF_RIP] == AtCFAPlusOffset(-8)
    requires ReadUnsigned(rf, RSP) == c
    requires ReadBytes(mem, c, 8) == Some(Word(ret))
    ensures RecoverRegister(row, rf, mem, DWARF_RIP) == Some(ret)
  {
    CfaOfRule(row, rf, DWARF_RSP, 8, RSP);
    WrapBack(c, 8);
    RecoverSaved(row, rf, mem, DWARF_RIP, (c + 8) % TWO_TO_64, -8, ret);
  }

  /** The entry plan's sp rule on a frame whose stack pointer is `c` finds
      `c + 8`. */
  lemma EntryRuleSp(row: Row, rf: RegisterFile, mem: Memory, c: u64)
    requires row.cfa == RegisterPlusOffset(DWARF_RSP, 8)
    requires DWARF_RSP in row.locations && row.locations[DWARF_RSP] == IsCFAPlusOffset(0)
    requires ReadUnsigned(rf, RSP) == c
    ensures RecoverRegister(row, rf, mem, DWARF_RSP) == Some((c + 8) % TWO_TO_64)
  {
    CfaOfRule(row, rf, DWARF_RSP, 8, RSP);
    RecoverComputed(row, rf, mem, DWARF_RSP, (c + 8) % TWO_TO_64, 0);
  }

  /** The entry plan on a frame whose stack pointer is `c` and whose stack
      holds `ret` at `c`: the caller resumes at `ret` with stack `c + 8`. */
  lemma EntryRowRecovers(rf: RegisterFile, mem: Memory, c: u64, ret: u64)
    requires ReadUnsigned(rf, RSP) == c
    requires ReadBytes(mem, c, 8) == Some(Word(ret))
    ensures var row := CreateFunctionEntryUnwindPlan().rows[0];
      && RecoverRegister(row, rf, mem, DWARF_RIP) == Some(ret)
      && RecoverRegister(row, rf, mem, DWARF_RSP) == Some((c + 8) % TWO_TO_64)
  {
    var row := CreateFunctionEntryUnwindPlan().rows[0];
    EntryRulePc(row, rf, mem, c, ret);
    EntryRuleSp(row, rf, mem, c);
  }

  /** The entry plan on the frame a call setup with stack `sp` leaves: the
      return address at CallStack(sp), which the stack pointer points at. */
  lemma EntryRowOnCallFrame(rf: RegisterFile, mem: Memory, sp: u64, returnAddr: u64)
    requires ReadUnsigned(rf, RSP) == CallStack(sp)
    requires ReadBytes(mem, CallStack(sp), 8) == Some(Word(returnAddr))
    ensures var row := CreateFunctionEntryUnwindPlan().rows[0];
      && RecoverRegister(row, rf, mem, DWARF_RIP) == Some(returnAddr)
      && RecoverRegister(row, rf, mem, DWARF_RSP) == Some((CallStack(sp) + 8) % TWO_TO_64)
      && (sp >= 16 ==> RecoverRegister(row, rf, mem, DWARF_RSP) == Some(sp - sp % 16))
  {
    EntryRowRecovers(rf, mem, CallStack(sp), returnAddr);
    if sp >= 16 {
      CallStackBelowAligned(sp);
    }
  }

  /** At the first instruction of the called function, the entry plan
      recovers the caller's frame the call setup left behind: the caller
      resumes at the return address, with the stack pointer it had before the
      return address was pushed, which is the 16-byte-aligned stack. */
  lemma EntryPlanAfterCallSetup(t: Inferior, sp: u64, funcAddr: u64, returnAddr: u64, args: seq<u64>)
    ensures var res := PrepareTrivialCall(t, sp, funcAddr, returnAddr, args);
      var th := res.thread;
      var row := CreateFunctionEntryUnwindPlan().rows[0];
      res.ok ==>
        && th.regs.Some?
        && RecoverRegister(row, th.regs.value, th.mem, DWARF_RIP) == Some(returnAddr)
        && RecoverRegister(row, th.regs.value, th.mem, DWARF_RSP) == Some((CallStack(sp) + 8) % TWO_TO_64)
        && (sp >= 16 ==> RecoverRegister(row, th.regs.value, th.mem, DWARF_RSP) == Some(sp - sp % 16))
  {
    var res := PrepareTrivialCall(t, sp, funcAddr, returnAddr, args);
    if res.ok {
      EntryRowOnCallFrame(res.thread.regs.value, res.thread.mem, sp, returnAddr);
    }
  }

  /** Above the return-address slot is the 16-byte-aligned stack. */
  lemma CallStackBelowAligned(sp: u64)
    requires sp >= 16
    ensures (CallStack(sp) + 8) % TWO_TO_64 == sp - sp % 16
  {
  }

  /** `th'` is `th` after `push rbp; mov rbp, rsp`: the old frame pointer
      stored just below the stack pointer, both registers pointing at it, and
      no other byte of memory changed. */
  ghost predicate PrologueStep(th: Inferior, th': Inferior)
  {
    && th.regs.Some? && th'.regs.Some?
    && var slot := (ReadUnsigned(th.regs.value, RSP) - 8) % TWO_TO_64;
       && ReadUnsigned(th'.regs.value, RSP) == slot
       && ReadUnsigned(th'.regs.value, RBP) == slot
       && ReadBytes(th'.mem, slot, 8) == Some(Word(ReadUnsigned(th.regs.value, RBP)))
       && (forall a :: (a < slot || a >= slot + 8) ==>
             (a in th'.mem.bytes <==> a in th.mem.bytes) && (a in th.mem.bytes ==> th'.mem.bytes[a] == th.mem.bytes[a]))
  }

  /** The standard prologue; it fails when a register or the stack slot
      cannot be written. */
  function PushFramePointer(th: Inferior): (r: Option<Inferior>)
    ensures r.Some? <==>
      && th.regs.Some? && RSP in th.regs.value.writable && RBP in th.regs.value.writable
      && WritableRange(th.mem, (ReadUnsigned(th.regs.value, RSP) - 8) % TWO_TO_64, 8)
    ensures r.Some? ==> PrologueStep(th, r.value)
  {
    match th.regs
    case None => None
    case Some(rf) =>
      var slot := (ReadUnsigned(rf, RSP) - 8) % TWO_TO_64;
      match WritePointer(th.mem, slot, ReadUnsigned(rf, RBP))
      case None => None
      case Some(mem') =>
        match WriteUnsigned(rf, RSP, slot)
        case None => None
        case Some(rf1) =>
          match WriteUnsigned(rf1, RBP, slot)
          case None => None
          case Some(rf2) =>
            assert ReadUnsigned(rf2, RSP) == ReadUnsigned(rf1, RSP);
            PrologueWrites(th, mem', rf2);
            Some(Inferior(Some(rf2), mem'))
  }

  /** The prologue's three writes, once made, are a prologue step. */
  lemma PrologueWrites(th: Inferior, mem': Memory, rf2: RegisterFile)
    requires th.regs.Some?
    requires var slot := (ReadUnsigned(th.regs.value, RSP) - 8) % TWO_TO_64;
      && WritePointer(th.mem, slot, ReadUnsigned(th.regs.value, RBP)) == Some(mem')
      && ReadUnsigned(rf2, RSP) == slot && ReadUnsigned(rf2, RBP) == slot
    ensures PrologueStep(th, Inferior(Some(rf2), mem'))
  {
    ReadBackPointer(th.mem, (ReadUnsigned(th.regs.value, RSP) - 8) % TWO_TO_64, ReadUnsigned(th.regs.value, RBP));
  }

  /** A read of eight bytes that a store of eight bytes below them leaves
      alone reads the same. */
  lemma ReadAboveStore(m: Memory, m': Memory, slot: int, at: int)
    requires slot + 8 <= at && ReadableRange(m, at, 8)
    requires forall a :: (a < slot || a >= slot + 8) ==>
      (a in m'.bytes <==> a in m.bytes) && (a in m.bytes ==> m'.bytes[a] == m.bytes[a])
    ensures ReadBytes(m', at, 8) == ReadBytes(m, at, 8)
  {
    forall a | at <= a < at + 8
      ensures a in m'.bytes && m'.bytes[a] == m.bytes[a]
    {
      assert a in m.bytes;
    }
    assert ReadableRange(m', at, 8);
    var x, y := ReadBytes(m', at, 8).value, ReadBytes(m, at, 8).value;
    assert forall i :: 0 <= i < 8 ==> x[i] == m'.bytes[at + i] == y[i];
    assert x == y;
  }

  /** The prologue's store of the old rbp just below `sp` leaves the word
      at `sp` alone. */
  lemma StoreBelowReturnSlot(m: Memory, m': Memory, sp: int, slot: int, savedFp: u64, ret: u64)
    requires slot == (sp - 8) % TWO_TO_64 && 8 <= sp < TWO_TO_64
    requires ReadBytes(m', slot, 8) == Some(Word(savedFp))
    requires ReadBytes(m, sp, 8) == Some(Word(ret))
    requires forall a :: (a < slot || a >= slot + 8) ==>
      (a in m'.bytes <==> a in m.bytes) && (a in m.bytes ==> m'.bytes[a] == m.bytes[a])
    ensures ReadBytes(m', sp - 8, 8) == Some(Word(savedFp))
    ensures ReadBytes(m', sp, 8) == Some(Word(ret))
  {
    ReadAboveStore(m, m', slot, sp);
  }

  /** After a prologue on a stack pointer `sp` of at least 8, rbp is
      `sp - 8` and the old rbp is saved there. */
  lemma PrologueFramePointer(th: Inferior, th': Inferior)
    requires PrologueStep(th, th')
    requires 8 <= ReadUnsigned(th.regs.value, RSP)
    ensures ReadUnsigned(th'.regs.value, RBP) == ReadUnsigned(th.regs.value, RSP) - 8
    ensures ReadBytes(th'.mem, ReadUnsigned(th.regs.value, RSP) - 8, 8) == Some(Word(ReadUnsigned(th.regs.value, RBP)))
  {
    NoWrap(ReadUnsigned(th.regs.value, RSP) - 8);
  }

  /** A prologue leaves the word at the old stack pointer alone. */
  lemma PrologueKeepsReturnAddress(th: Inferior, th': Inferior, ret: u64)
    requires PrologueStep(th, th')
    requires 8 <= ReadUnsigned(th.regs.value, RSP)
    requires ReadBytes(th.mem, ReadUnsigned(th.regs.value, RSP), 8) == Some(Word(ret))
    ensures ReadBytes(th'.mem, ReadUnsigned(th.regs.value, RSP), 8) == Some(Word(ret))
  {
    var sp := ReadUnsigned(th.regs.value, RSP);
    StoreBelowReturnSlot(th.mem, th'.mem, sp, (sp - 8) % TWO_TO_64, ReadUnsigned(th.regs.value, RBP), ret);
  }

  /** The default plan's rule for a register saved at CFA + `off` on a frame
      whose rbp is `fp`: it finds the word stored at fp + 16 + `off`. */
  lemma DefaultRuleSaved(row: Row, rf: RegisterFile, mem: Memory, n: nat, off: int, x: u64)
    requires row.cfa == RegisterPlusOffset(DWARF_RBP, 16)
    requires n in row.locations && row.locations[n] == AtCFAPlusOffset(off)
    requires 0 <= ReadUnsigned(rf, RBP) + 16 + off && ReadUnsigned(rf, RBP) + 16 < TWO_TO_64
    requires off <= 0
    requires ReadBytes(mem, ReadUnsigned(rf, RBP) + 16 + off, 8) == Some(Word(x))
    ensures RecoverRegister(row, rf, mem, n) == Some(x)
  {
    var fp := ReadUnsigned(rf, RBP);
    CfaOfRule(row, rf, DWARF_RBP, 16, RBP);
    NoWrap(fp + 16 + off);
    RecoverSaved(row, rf, mem, n, fp + 16, off, x);
  }

  /** The default plan's sp rule on a frame whose rbp is `fp` finds fp + 16. */
  lemma DefaultRuleSp(row: Row, rf: RegisterFile, mem: Memory)
    requires row.cfa == RegisterPlusOffset(DWARF_RBP, 16)
    requires DWARF_RSP in row.locations && row.locations[DWARF_RSP] == IsCFAPlusOffset(0)
    requires ReadUnsigned(rf, RBP) + 16 < TWO_TO_64
    ensures RecoverRegister(row, rf, mem, DWARF_RSP) == Some(ReadUnsigned(rf, RBP) + 16)
  {
    CfaOfRule(row, rf, DWARF_RBP, 16, RBP);
    RecoverComputed(row, rf, mem, DWARF_RSP, ReadUnsigned(rf, RBP) + 16, 0);
  }

  /** In a frame that keeps the frame-pointer chain (rbp points at the saved
      rbp, with the return address above it), the default plan recovers the
      caller's frame pointer, program counter and stack pointer. */
  lemma DefaultPlanOnStandardFrame(rf: RegisterFile, mem: Memory, savedFp: u64, returnAddr: u64)
    requires ReadUnsigned(rf, RBP) + 16 < TWO_TO_64
    requires ReadBytes(mem, ReadUnsigned(rf, RBP), 8) == Some(Word(savedFp))
    requires ReadBytes(mem, ReadUnsigned(rf, RBP) + 8, 8) == Some(Word(returnAddr))
    ensures var row := CreateDefaultUnwindPlan().rows[0];
      && RecoverRegister(row, rf, mem, DWARF_RBP) == Some(savedFp)
      && RecoverRegister(row, rf, mem, DWARF_RIP) == Some(returnAddr)
      && RecoverRegister(row, rf, mem, DWARF_RSP) == Some(ReadUnsigned(rf, RBP) + 16)
  {
    var row := CreateDefaultUnwindPlan().rows[0];
    var fp := ReadUnsigned(rf, RBP);
    assert fp + 16 + -16 == fp && fp + 16 + -8 == fp + 8;
    DefaultRuleSaved(row, rf, mem, DWARF_RBP, -16, savedFp);
    DefaultRuleSaved(row, rf, mem, DWARF_RIP, -8, returnAddr);
    DefaultRuleSp(row, rf, mem);
  }

  /** The two plans describe the same caller: what the entry plan recovers
      at a function's first instruction, the default plan recovers once the
      standard prologue has run, and it also recovers the caller's frame
      pointer that the prologue saved. */
  lemma DefaultPlanAfterPrologue(th: Inferior, th': Inferior, ret: u64)
    requires PushFramePointer(th) == Some(th')
    requires 8 <= ReadUnsigned(th.regs.value, RSP) <= TWO_TO_64 - 16
    requires ReadBytes(th.mem, ReadUnsigned(th.regs.value, RSP), 8) == Some(Word(ret))
    ensures var entry := CreateFunctionEntryUnwindPlan().rows[0];
      var deflt := CreateDefaultUnwindPlan().rows[0];
      && RecoverRegister(entry, th.regs.value, th.mem, DWARF_RIP) == Some(ret)
      && RecoverRegister(deflt, th'.regs.value, th'.mem, DWARF_RIP) == Some(ret)
      && RecoverRegister(entry, th.regs.value, th.mem, DWARF_RSP) == Some(ReadUnsigned(th.regs.value, RSP) + 8)
      && RecoverRegister(deflt, th'.regs.value, th'.mem, DWARF_RSP) == Some(ReadUnsigned(th.regs.value, RSP) + 8)
      && RecoverRegister(deflt, th'.regs.value, th'.mem, DWARF_RBP) == Some(ReadUnsigned(th.regs.value, RBP))
  {
    PushIsPrologue(th, th');
    PlansAcrossPrologue(th, th', ret);
  }

  lemma PushIsPrologue(th: Inferior, th': Inferior)
    requires PushFramePointer(th) == Some(th')
    ensures PrologueStep(th, th')
  {
  }

  /** The same, for any prologue step. */
  lemma PlansAcrossPrologue(th: Inferior, th': Inferior, ret: u64)
    requires PrologueStep(th, th')
    requires 8 <= ReadUnsigned(th.regs.value, RSP) <= TWO_TO_64 - 16
    requires ReadBytes(th.mem, ReadUnsigned(th.regs.value, RSP), 8) == Some(Word(ret))
    ensures var entry := CreateFunctionEntryUnwindPlan().rows[0];
      var deflt := CreateDefaultUnwindPlan().rows[0];
      && RecoverRegister(entry, th.regs.value, th.mem, DWARF_RIP) == Some(ret)
      && RecoverRegister(deflt, th'.regs.value, th'.mem, DWARF_RIP) == Some(ret)
      && RecoverRegister(entry, th.regs.value, th.mem, DWARF_RSP) == Some(ReadUnsigned(th.regs.value, RSP) + 8)
      && RecoverRegister(deflt, th'.regs.value, th'.mem, DWARF_RSP) == Some(ReadUnsigned(th.regs.value, RSP) + 8)
      && RecoverRegister(deflt, th'.regs.value, th'.mem, DWARF_RBP) == Some(ReadUnsigned(th.regs.value, RBP))
  {
    var sp := ReadUnsigned(th.regs.value, RSP);
    EntryRowRecovers(th.regs.value, th.mem, sp, ret);
    NoWrap(sp + 8);
    DefaultAfterPrologueStep(th, th', ret);
  }

  /** After a prologue, the default plan finds the caller's pc and frame
      pointer in the slots above and at the new rbp, and its stack above
      them. */
  lemma DefaultAfterPrologueStep(th: Inferior, th': Inferior, ret: u64)
    requires PrologueStep(th, th')
    requires 8 <= ReadUnsigned(th.regs.value, RSP) <= TWO_TO_64 - 16
    requires ReadBytes(th.mem, ReadUnsigned(th.regs.value, RSP), 8) == Some(Word(ret))
    ensures var deflt := CreateDefaultUnwindPlan().rows[0];
      && RecoverRegister(deflt, th'.regs.value, th'.mem, DWARF_RIP) == Some(ret)
      && RecoverRegister(deflt, th'.regs.value, th'.mem, DWARF_RSP) == Some(ReadUnsigned(th.regs.value, RSP) + 8)
      && RecoverRegister(deflt, th'.regs.value, th'.mem, DWARF_RBP) == Some(ReadUnsigned(th.regs.value, RBP))
  {
    var sp := ReadUnsigned(th.regs.value, RSP);
    PrologueFramePointer(th, th');
    PrologueKeepsReturnAddress(th, th', ret);
    assert sp - 8 + 8 == sp && sp - 8 + 16 == sp + 8;
    DefaultPlanOnStandardFrame(th'.regs.value, th'.mem, ReadUnsigned(th.regs.value, RBP), ret);
  }
}
