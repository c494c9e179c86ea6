/** The register catalog of the x86-64 System V ABI plugin: the registers the
    calling-convention logic touches, their DWARF numbers and their generic
    roles (argument 1..6, stack pointer, frame pointer, program counter,
    flags), plus the callee-saved classification used by the unwinder. */
module Registers {
  import opened Base

  /** The machine registers the ABI logic reads, writes or names. */
  datatype Reg =
    | RAX | RBX | RCX | RDX | RSI | RDI | RBP | RSP
    | R8 | R9 | R10 | R11 | R12 | R13 | R14 | R15
    | RIP | RFLAGS | XMM0 | XMM1 | XMM2

  /** Generic register roles, independent of the architecture. Argument
      roles are numbered from 1 as in the source's ARG1..ARG6. */
  datatype Role = Arg(n: nat) | SP | FP | PC | Flags

  /** One row of the register table: name, alternate name, byte size, DWARF
      number (also the eh_frame number on this target) and generic role. */
  datatype RegisterInfo = RegisterInfo(
    reg: Reg,
    name: string,
    altName: Option<string>,
    byteSize: nat,
    dwarf: Option<nat>,
    generic: Option<Role>)

  /** DWARF register numbers (section 3.6.2 numbering of the x86-64 psABI). */
  const DWARF_RAX: nat := 0
  const DWARF_RBP: nat := 6
  const DWARF_RSP: nat := 7
  const DWARF_RIP: nat := 16

  /** The register table, keyed by register: the general-purpose rows, the
      flags row and the three vector registers the return-value logic reads. */
  function Info(r: Reg): RegisterInfo
  {
    match r
    case RAX => RegisterInfo(RAX, "rax", None, 8, Some(0), None)
    case RBX => RegisterInfo(RBX, "rbx", None, 8, Some(3), None)
    case RCX => RegisterInfo(RCX, "rcx", Some("arg4"), 8, Some(2), Some(Arg(4)))
    case RDX => RegisterInfo(RDX, "rdx", Some("arg3"), 8, Some(1), Some(Arg(3)))
    case RSI => RegisterInfo(RSI, "rsi", Some("arg2"), 8, Some(4), Some(Arg(2)))
    case RDI => RegisterInfo(RDI, "rdi", Some("arg1"), 8, Some(5), Some(Arg(1)))
    case RBP => RegisterInfo(RBP, "rbp", Some("fp"), 8, Some(6), Some(FP))
    case RSP => RegisterInfo(RSP, "rsp", Some("sp"), 8, Some(7), Some(SP))
    case R8 => RegisterInfo(R8, "r8", Some("arg5"), 8, Some(8), Some(Arg(5)))
    case R9 => RegisterInfo(R9, "r9", Some("arg6"), 8, Some(9), Some(Arg(6)))
    case R10 => RegisterInfo(R10, "r10", None, 8, Some(10), None)
    case R11 => RegisterInfo(R11, "r11", None, 8, Some(11), None)
    case R12 => RegisterInfo(R12, "r12", None, 8, Some(12), None)
    case R13 => RegisterInfo(R13, "r13", None, 8, Some(13), None)
    case R14 => RegisterInfo(R14, "r14", None, 8, Some(14), None)
    case R15 => RegisterInfo(R15, "r15", None, 8, Some(15), None)
    case RIP => RegisterInfo(RIP, "rip", Some("pc"), 8, Some(16), Some(PC))
    case RFLAGS => RegisterInfo(RFLAGS, "rflags", None, 4, None, Some(Flags))
    case XMM0 => RegisterInfo(XMM0, "xmm0", None, 16, Some(17), None)
    case XMM1 => RegisterInfo(XMM1, "xmm1", None, 16, Some(18), None)
    case XMM2 => RegisterInfo(XMM2, "xmm2", None, 16, Some(19), None)
  }

  /** The register the register context finds for a generic role. */
  function RegisterForRole(role: Role): (r: Option<Reg>)
    ensures r.Some? ==> Info(r.value).generic == Some(role)
  {
    match role
    case Arg(n) =>
      if n == 1 then Some(RDI)
      else if n == 2 then Some(RSI)
      else if n == 3 then Some(RDX)
      else if n == 4 then Some(RCX)
      else if n == 5 then Some(R8)
      else if n == 6 then Some(R9)
      else None
    case SP => Some(RSP)
    case FP => Some(RBP)
    case PC => Some(RIP)
    case Flags => Some(RFLAGS)
  }

  /** The lookup by role finds a register exactly when that register's row
      carries the role, so every role names at most one row. */
  lemma RoleLookupMatchesTable(role: Role, r: Reg)
    ensures RegisterForRole(role) == Some(r) <==> Info(r).generic == Some(role)
  {
  }

  /** The 128-bit SSE registers; the rest are 64-bit or narrower. */
  predicate IsVectorRegister(r: Reg)
  {
    r == XMM0 || r == XMM1 || r == XMM2
  }

  /** The six integer/pointer argument registers in argument order. */
  const ArgumentRegisters: seq<Reg> := [RDI, RSI, RDX, RCX, R8, R9]

  /** ARG(i+1) is the `i`-th register of the argument sequence. */
  lemma ArgumentRole(i: nat)
    requires i < 6
    ensures RegisterForRole(Arg(i + 1)) == Some(ArgumentRegisters[i])
  {
  }

  /** The table's role column: ARG1..ARG6 are rdi, rsi, rdx, rcx, r8, r9;
      FP is rbp, SP is rsp, PC is rip, and no row carries an argument role
      outside 1..6. */
  lemma RoleTable()
    ensures forall i :: 0 <= i < 6 ==> RegisterForRole(Arg(i + 1)) == Some(ArgumentRegisters[i])
    ensures forall r: Reg, n: nat :: Info(r).generic == Some(Arg(n)) ==> 1 <= n <= 6
    ensures RegisterForRole(SP) == Some(RSP)
    ensures RegisterForRole(FP) == Some(RBP)
    ensures RegisterForRole(PC) == Some(RIP)
  {
  }

  /** The register holding a pointer-sized return value. */
  const POINTER_RETURN_REGISTER: string := "rax"

  /** Bytes below the stack pointer that a leaf function may use without
      adjusting it. */
  const RED_ZONE_SIZE: nat := 128

  /** Names the unwinder treats as callee-saved (or as the frame's own stack
      pointer and program counter), under both 64- and 32-bit spellings and
      the generic aliases. */
  const CalleeSavedNames: set<string> := {
    "r12", "r13", "r14", "r15", "rbp", "ebp", "rbx", "ebx",
    "rip", "eip", "rsp", "esp", "sp", "fp", "pc"
  }

  /** Callee-saved test on a possibly missing register description. */
  function RegisterIsCalleeSaved(name: Option<string>): (r: bool)
    ensures name.None? ==> !r
    ensures name.Some? ==> (r <==> name.value in CalleeSavedNames)
  {
    match name
    case None => false
    case Some(n) =>
      n == "r12" || n == "r13" || n == "r14" || n == "r15" || n == "rbp" || n == "ebp"
      || n == "rbx" || n == "ebx" || n == "rip" || n == "eip" || n == "rsp" || n == "esp"
      || n == "sp" || n == "fp" || n == "pc"
  }

  /** A register is volatile exactly when it is not callee-saved. */
  function RegisterIsVolatile(name: Option<string>): (r: bool)
    ensures r <==> !RegisterIsCalleeSaved(name)
    ensures name.None? ==> r
  {
    !RegisterIsCalleeSaved(name)
  }

  /** For every row of the table, the callee-saved test on its primary name
      agrees with the psABI's register-usage rule: rbx, rbp, r12-r15 are
      preserved by the callee, and rsp and rip are the frame's own; rax, rcx,
      rdx, rsi, rdi, r8-r11, the flags and the vector registers are volatile. */
  lemma CalleeSavedMatchesTable(r: Reg)
    ensures RegisterIsCalleeSaved(Some(Info(r).name)) <==> r in {RBX, RBP, RSP, R12, R13, R14, R15, RIP}
  {
  }

  /** Every argument register is volatile under its name and its alias, and
      so is the pointer-return register. */
  lemma ArgumentRegistersVolatile(i: nat)
    requires i < 6
    ensures RegisterIsVolatile(Some(Info(ArgumentRegisters[i]).name))
    ensures RegisterIsVolatile(Info(ArgumentRegisters[i]).altName)
    ensures RegisterIsVolatile(Some(POINTER_RETURN_REGISTER))
  {
  }

  /** The frame-pointer, stack-pointer and program-counter registers are
      callee-saved under both their names and their generic aliases. */
  lemma FrameRolesCalleeSaved(r: Reg)
    requires Info(r).generic in {Some(FP), Some(SP), Some(PC)}
    ensures RegisterIsCalleeSaved(Some(Info(r).name))
    ensures RegisterIsCalleeSaved(Info(r).altName)
  {
  }
}
