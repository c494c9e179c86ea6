/** Reading the integer and pointer arguments of a call at function entry:
    the first six from the argument registers in order, the rest from the
    stack above the return address. */
module Arguments {
  import opened Base
  import opened Registers
  import opened Machine

  /** What the argument extraction needs to know of a value's type. */
  datatype ArgKind = IntegerArg(signed: bool) | PointerArg | OtherArg

  /** A value slot to fill: its bit size (unknown for an invalid type) and kind. */
  datatype ArgType = ArgType(bitSize: Option<nat>, kind: ArgKind)

  /** Where the next argument comes from: the index of the next argument
      register, and the stack address of the next stack argument. */
  datatype Cursor = Cursor(register: nat, stack: u64)

  /** Sign extension of the `bits`-bit value held in `v` to 64 bits: when bit
      `bits - 1` is set every higher bit is set; otherwise `v` is left as it is. */
  function SignExtend(v: u64, bits: nat): (r: u64)
    ensures bits == 0 || bits >= 64 ==> r == v
    ensures 0 < bits < 64 ==> r % Pow2(bits) == v % Pow2(bits)
    ensures 0 < bits < 64 && (v / Pow2(bits - 1)) % 2 == 0 ==> r == v
    ensures 0 < bits < 64 && (v / Pow2(bits - 1)) % 2 == 1 ==> r / Pow2(bits) == Pow2(64 - bits) - 1
  {
    if 0 < bits < 64 && (v / Pow2(bits - 1)) % 2 == 1 then
      Pow2Monotone(bits, 64);
      Pow2Of64();
      var p := Pow2(bits);
      HighBitsKeepResidue(v % p, bits);
      v % p + (TWO_TO_64 - p)
    else v
  }

  /** Setting every bit from `bits` upwards keeps the low `bits` bits. */
  lemma HighBitsKeepResidue(a: nat, bits: nat)
    requires 0 < bits < 64 && a < Pow2(bits)
    ensures (a + (TWO_TO_64 - Pow2(bits))) % Pow2(bits) == a
    ensures (a + (TWO_TO_64 - Pow2(bits))) / Pow2(bits) == Pow2(64 - bits) - 1
  {
    Pow2Add(bits, 64 - bits);
    Pow2Of64();
    ResidueAfterMultiples(a, Pow2(bits), Pow2(64 - bits));
  }

  /** Adding all but one of `q` multiples of `p` keeps a residue and makes
      the quotient `q - 1`. */
  lemma ResidueAfterMultiples(a: int, p: int, q: int)
    requires 0 <= a < p && q >= 1
    ensures (a + (p * q - p)) % p == a
    ensures (a + (p * q - p)) / p == q - 1
  {
    assert p * (q - 1) == p * q - p by { MulSubOne(p, q); }
    ModUnique(a + (p * q - p), p, q - 1, a);
  }

  lemma MulSubOne(p: int, q: int)
    ensures p * (q - 1) == p * q - p
  {
  }

  /** Bytes a stack argument of `bits` bits occupies. */
  function ByteWidth(bits: nat): nat
  {
    (bits + 7) / 8
  }

  /** How far the stack cursor moves past an argument read from the stack:
      by its byte width, as the extraction does; or by one eightbyte, the
      slot the calling convention gives every argument of at most 64 bits. */
  datatype StackRule = ByWidth | ByEightbyte

  /** The stack bytes an argument of `bits` bits is taken to occupy. */
  function Advance(rule: StackRule, bits: nat): (n: nat)
    ensures rule == ByWidth ==> n == ByteWidth(bits)
    ensures rule == ByEightbyte ==> n == 8
    ensures bits <= 64 ==> ByteWidth(bits) <= n
  {
    match rule
    case ByWidth => ByteWidth(bits)
    case ByEightbyte => 8
  }

  /** Reads one integer or pointer argument at `cur` and advances the
      cursor, past a stack argument by the amount `rule` gives. Widths over
      64 bits are refused; a stack read that fails leaves the cursor where
      it was. */
  function ReadIntegerArgument(rf: RegisterFile, mem: Memory, bits: nat, signed: bool, cur: Cursor, rule: StackRule)
    : (res: (bool, Option<u64>, Cursor))
    ensures bits > 64 ==> res == (false, None, cur)
    ensures bits <= 64 && cur.register < 6 ==>
      && res.0
      && res.1 == Some(if signed then SignExtend(ReadUnsigned(rf, ArgumentRegisters[cur.register]), bits)
                       else ReadUnsigned(rf, ArgumentRegisters[cur.register]))
      && res.2 == Cursor(cur.register + 1, cur.stack)
    ensures bits <= 64 && cur.register >= 6 ==>
      && res.2.register == cur.register
      && (res.0 <==> ReadableRange(mem, cur.stack, ByteWidth(bits)))
      && (res.0 ==> res.2.stack == (cur.stack + Advance(rule, bits)) % TWO_TO_64)
      && (!res.0 ==> res == (false, None, cur))
  {
    if bits > 64 then (false, None, cur)
    else if cur.register < 6 then
      ArgumentRole(cur.register);
      var reg := RegisterForRole(Arg(cur.register + 1)).value;
      var raw := ReadUnsigned(rf, reg);
      (true, Some(if signed then SignExtend(raw, bits) else raw), Cursor(cur.register + 1, cur.stack))
    else
      var n := ByteWidth(bits);
      match ReadBytes(mem, cur.stack, n)
      case None => (false, None, cur)
      case Some(bs) =>
        (true, Some(StackInteger(bs, signed)), Cursor(cur.register, (cur.stack + Advance(rule, bits)) % TWO_TO_64))
  }

  /** The integer held in up to eight little-endian bytes of memory, sign
      extended from its byte width when signed. */
  function StackInteger(bs: seq<byte>, signed: bool): (v: u64)
    requires |bs| <= 8
    ensures !signed ==> v == DecodeLE(bs)
  {
    Pow2Monotone(8 * |bs|, 64);
    Pow2Of64();
    var raw := DecodeLE(bs);
    if signed then SignExtend(raw, 8 * |bs|) else raw
  }

  /** Fills the value slots `types[i..]` from `cur` on. A slot whose type has
      no known size stops the extraction with failure; slots that are
      neither integers nor pointers are skipped without consuming anything. */
  function ReadArguments(rf: RegisterFile, mem: Memory, types: seq<ArgType>, i: nat, cur: Cursor, rule: StackRule)
    : (res: (bool, seq<Option<u64>>))
    requires i <= |types|
    ensures |res.1| == |types| - i
    ensures res.0 <==> forall j :: i <= j < |types| ==> types[j].bitSize.Some?
    ensures forall j :: i <= j < |types| && !Eligible(types[j]) ==> res.1[j - i].None?
    decreases |types| - i
  {
    if i == |types| then (true, [])
    else
      var t := types[i];
      match t.bitSize
      case None => (false, seq(|types| - i, _ => None))
      case Some(bits) =>
        match t.kind
        case OtherArg =>
          var rest := ReadArguments(rf, mem, types, i + 1, cur, rule);
          (rest.0, [None] + rest.1)
        case IntegerArg(signed) =>
          var (_, v, cur') := ReadIntegerArgument(rf, mem, bits, signed, cur, rule);
          var rest := ReadArguments(rf, mem, types, i + 1, cur', rule);
          (rest.0, [v] + rest.1)
        case PointerArg =>
          var (_, v, cur') := ReadIntegerArgument(rf, mem, bits, false, cur, rule);
          var rest := ReadArguments(rf, mem, types, i + 1, cur', rule);
          (rest.0, [v] + rest.1)
  }

  /** The argument values of the call the thread has just entered. Fails
      without a register context, with a null stack pointer, or when a
      type's size is unknown. The extraction as written moves `ByWidth`. */
  function GetArgumentValues(t: Inferior, types: seq<ArgType>, rule: StackRule): (res: (bool, seq<Option<u64>>))
    ensures |res.1| == |types|
    ensures res.0 <==>
      && t.regs.Some?
      && ReadUnsigned(t.regs.value, RSP) != 0
      && forall j :: 0 <= j < |types| ==> types[j].bitSize.Some?
    ensures forall j :: 0 <= j < |types| && !Eligible(types[j]) ==> res.1[j].None?
  {
    match t.regs
    case None => (false, seq(|types|, _ => None))
    case Some(rf) =>
      RoleTable();
      var sp := ReadUnsigned(rf, RegisterForRole(SP).value);
      if sp == 0 then (false, seq(|types|, _ => None))
      else ReadArguments(rf, t.mem, types, 0, Cursor(0, (sp + 8) % TWO_TO_64), rule)
  }

  // ---------------------------------------------------------------------
  // An independent description of where each argument comes from.

  /** A slot the extraction reads: an integer or pointer of at most 64 bits. */
  predicate Eligible(t: ArgType)
  {
    t.kind != OtherArg && t.bitSize.Some? && t.bitSize.value <= 64
  }

  /** How many of the slots before `j` are read. */
  function CountEligible(types: seq<ArgType>, j: nat): (n: nat)
    requires j <= |types|
    ensures n <= j
  {
    if j == 0 then 0
    else CountEligible(types, j - 1) + (if Eligible(types[j - 1]) then 1 else 0)
  }

  /** Stack bytes taken by the slots before `j` that are read from the stack. */
  function StackBytes(types: seq<ArgType>, j: nat, rule: StackRule): nat
    requires j <= |types|
  {
    if j == 0 then 0
    else
      var k := j - 1;
      StackBytes(types, k, rule)
        + (if Eligible(types[k]) && CountEligible(types, k) >= 6 then Advance(rule, types[k].bitSize.value) else 0)
  }

  /** The stack address the description reads slot `j` from, if it is a
      stack argument. */
  function SlotAddress(sp: u64, types: seq<ArgType>, j: nat, rule: StackRule): int
    requires j <= |types|
  {
    (sp + 8 + StackBytes(types, j, rule)) % TWO_TO_64
  }

  /** Where slot `j` is read from: argument register `CountEligible` while
      fewer than six slots precede it, otherwise the stack above the return
      address, past the earlier stack arguments. */
  function ExpectedArgument(rf: RegisterFile, mem: Memory, sp: u64, types: seq<ArgType>, j: nat, rule: StackRule): Option<u64>
    requires j < |types|
  {
    var t := types[j];
    if !Eligible(t) then None
    else
      var bits := t.bitSize.value;
      var signed := t.kind == IntegerArg(true);
      var n := CountEligible(types, j);
      if n < 6 then
        var raw := ReadUnsigned(rf, ArgumentRegisters[n]);
        Some(if signed then SignExtend(raw, bits) else raw)
      else
        match ReadBytes(mem, SlotAddress(sp, types, j, rule), ByteWidth(bits))
        case None => None
        case Some(bs) => Some(StackInteger(bs, signed))
  }

  /** Every stack argument before `j` can be read where the description
      places it. */
  predicate StackReadable(mem: Memory, sp: u64, types: seq<ArgType>, j: nat, rule: StackRule)
    requires j <= |types|
  {
    forall k {:trigger SlotAddress(sp, types, k, rule)} :: 0 <= k < j && Eligible(types[k]) && CountEligible(types, k) >= 6 ==>
      ReadableRange(mem, SlotAddress(sp, types, k, rule), ByteWidth(types[k].bitSize.value))
  }

  /** The cursor the extraction holds when it reaches slot `i`. */
  function CursorAt(sp: u64, types: seq<ArgType>, i: nat, rule: StackRule): Cursor
    requires i <= |types|
  {
    var n := CountEligible(types, i);
    Cursor(if n < 6 then n else 6, SlotAddress(sp, types, i, rule))
  }

  lemma ModShift(a: int, b: int)
    ensures ((a % TWO_TO_64) + b) % TWO_TO_64 == (a + b) % TWO_TO_64
  {
    var q := a / TWO_TO_64;
    assert a == TWO_TO_64 * q + a % TWO_TO_64;
    assert a + b == (a % TWO_TO_64 + b) + TWO_TO_64 * q;
    ModPeriodic(a % TWO_TO_64 + b, q);
  }

  lemma ModPeriodic(x: int, q: int)
    ensures (x + TWO_TO_64 * q) % TWO_TO_64 == x % TWO_TO_64
  {
    var r := x % TWO_TO_64;
    var d := x / TWO_TO_64;
    assert x == TWO_TO_64 * d + r;
    assert x + TWO_TO_64 * q == TWO_TO_64 * (d + q) + r;
    ModUnique(x + TWO_TO_64 * q, TWO_TO_64, d + q, r);
  }

  /** One step of the extraction moves the cursor as the description does,
      provided the stack read of that step succeeds. */
  lemma CursorStep(rf: RegisterFile, mem: Memory, sp: u64, types: seq<ArgType>, i: nat, rule: StackRule)
    requires i < |types| && types[i].bitSize.Some?
    requires StackReadable(mem, sp, types, i + 1, rule)
    ensures types[i].kind != OtherArg ==>
      var signed := types[i].kind == IntegerArg(true);
      var r := ReadIntegerArgument(rf, mem, types[i].bitSize.value, signed, CursorAt(sp, types, i, rule), rule);
      r.2 == CursorAt(sp, types, i + 1, rule) && r.1 == ExpectedArgument(rf, mem, sp, types, i, rule)
    ensures types[i].kind == OtherArg ==> CursorAt(sp, types, i, rule) == CursorAt(sp, types, i + 1, rule)
  {
    var t := types[i];
    var bits := t.bitSize.value;
    if t.kind != OtherArg && bits <= 64 && CountEligible(types, i) >= 6 {
      assert ReadableRange(mem, SlotAddress(sp, types, i, rule), ByteWidth(bits));
      ModShift(sp + 8 + StackBytes(types, i, rule), Advance(rule, bits));
    }
  }

  /** Slots `i..` are filled as the description says, when the extraction
      reaches slot `i` with the description's cursor. */
  lemma {:induction false} ReadArgumentsMatches(rf: RegisterFile, mem: Memory, sp: u64, types: seq<ArgType>, i: nat, j: nat, rule: StackRule)
    requires i <= j < |types|
    requires forall k :: 0 <= k < |types| ==> types[k].bitSize.Some?
    requires StackReadable(mem, sp, types, j + 1, rule)
    ensures ReadArguments(rf, mem, types, i, CursorAt(sp, types, i, rule), rule).1[j - i] == ExpectedArgument(rf, mem, sp, types, j, rule)
    decreases j - i
  {
    StackReadablePrefix(mem, sp, types, i + 1, j + 1, rule);
    SlotStep(rf, mem, sp, types, i, rule);
    if i < j {
      ReadArgumentsMatches(rf, mem, sp, types, i + 1, j, rule);
      var rest := ReadArguments(rf, mem, types, i + 1, CursorAt(sp, types, i + 1, rule), rule).1;
      ConsIndex(ExpectedArgument(rf, mem, sp, types, i, rule), rest, j - i);
    }
  }

  /** A stack readable up to slot `b` is readable up to any earlier slot. */
  lemma StackReadablePrefix(mem: Memory, sp: u64, types: seq<ArgType>, a: nat, b: nat, rule: StackRule)
    requires a <= b <= |types|
    requires StackReadable(mem, sp, types, b, rule)
    ensures StackReadable(mem, sp, types, a, rule)
  {
  }

  lemma ConsIndex<T>(x: T, rest: seq<T>, k: nat)
    requires 0 < k <= |rest|
    ensures ([x] + rest)[k] == rest[k - 1]
  {
  }

  /** The extraction at slot `i` with the description's cursor yields the
      described value, then goes on from the description's next cursor. */
  lemma SlotStep(rf: RegisterFile, mem: Memory, sp: u64, types: seq<ArgType>, i: nat, rule: StackRule)
    requires i < |types| && types[i].bitSize.Some?
    requires StackReadable(mem, sp, types, i + 1, rule)
    ensures ReadArguments(rf, mem, types, i, CursorAt(sp, types, i, rule), rule).1
         == [ExpectedArgument(rf, mem, sp, types, i, rule)] + ReadArguments(rf, mem, types, i + 1, CursorAt(sp, types, i + 1, rule), rule).1
  {
    CursorStep(rf, mem, sp, types, i, rule);
    ReadArgumentsStep(rf, mem, types, i, CursorAt(sp, types, i, rule), ExpectedArgument(rf, mem, sp, types, i, rule), CursorAt(sp, types, i + 1, rule), rule);
  }

  /** One slot of the extraction: the value `v` read at `cur`, then the
      slots after it read from `next`. */
  lemma ReadArgumentsStep(rf: RegisterFile, mem: Memory, types: seq<ArgType>, i: nat, cur: Cursor, v: Option<u64>, next: Cursor, rule: StackRule)
    requires i < |types| && types[i].bitSize.Some?
    requires types[i].kind == OtherArg ==> v == None && next == cur
    requires types[i].kind != OtherArg ==>
      var s := ReadIntegerArgument(rf, mem, types[i].bitSize.value, types[i].kind == IntegerArg(true), cur, rule);
      s.1 == v && s.2 == next
    ensures ReadArguments(rf, mem, types, i, cur, rule).1 == [v] + ReadArguments(rf, mem, types, i + 1, next, rule).1
  {
  }

  /** Every argument slot holds what the description says: register
      arguments in ARG1..ARG6 order (sign-extended when signed), then stack
      arguments from SP+8, each advancing the stack by what `rule` gives;
      slots that are not integers or pointers, or wider than 64 bits,
      are left empty and consume nothing. */
  lemma GetArgumentValuesMatches(t: Inferior, types: seq<ArgType>, j: nat, rule: StackRule)
    requires GetArgumentValues(t, types, rule).0
    requires j < |types|
    requires StackReadable(t.mem, ReadUnsigned(t.regs.value, RSP), types, j + 1, rule)
    ensures GetArgumentValues(t, types, rule).1[j] == ExpectedArgument(t.regs.value, t.mem, ReadUnsigned(t.regs.value, RSP), types, j, rule)
  {
    var rf := t.regs.value;
    var sp := ReadUnsigned(rf, RSP);
    RoleTable();
    assert CursorAt(sp, types, 0, rule) == Cursor(0, (sp + 8) % TWO_TO_64);
    ReadArgumentsMatches(rf, t.mem, sp, types, 0, j, rule);
  }

  // ---------------------------------------------------------------------
  // Stack slots. The calling convention gives every stack argument a slot
  // of whole eightbytes (section 3.2.3 of the System V AMD64 psABI), so the
  // `m`-th stack argument of a call whose arguments all fit in 64 bits is at
  // SP + 8 + 8 * m. Moving `ByWidth` finds it there only when every earlier
  // stack argument is eight bytes wide.

  /** When every slot is read, the `k`-th slot is the `k`-th read. */
  lemma {:induction false} EveryEligibleCount(types: seq<ArgType>, k: nat)
    requires k <= |types|
    requires forall i :: 0 <= i < |types| ==> Eligible(types[i])
    ensures CountEligible(types, k) == k
  {
    if k > 0 {
      EveryEligibleCount(types, k - 1);
    }
  }

  /** With eightbyte slots, the stack arguments before slot `j` of a call
      whose slots are all read take eight bytes each. */
  lemma {:induction false} EightbyteStackBytes(types: seq<ArgType>, j: nat)
    requires j <= |types|
    requires forall i :: 0 <= i < |types| ==> Eligible(types[i])
    ensures StackBytes(types, j, ByEightbyte) == if j <= 6 then 0 else 8 * (j - 6)
  {
    if j > 0 {
      EightbyteStackBytes(types, j - 1);
      EveryEligibleCount(types, j - 1);
    }
  }

  /** The corrected extraction reads the `m`-th stack argument from its own
      slot, SP + 8 + 8 * m, whatever the widths of the arguments before it. */
  lemma EightbyteSlots(t: Inferior, types: seq<ArgType>, j: nat)
    requires GetArgumentValues(t, types, ByEightbyte).0
    requires forall i :: 0 <= i < |types| ==> Eligible(types[i])
    requires 6 <= j < |types|
    requires StackReadable(t.mem, ReadUnsigned(t.regs.value, RSP), types, j + 1, ByEightbyte)
    ensures var sp := ReadUnsigned(t.regs.value, RSP);
      var bs := ReadBytes(t.mem, (sp + 8 + 8 * (j - 6)) % TWO_TO_64, ByteWidth(types[j].bitSize.value));
      && bs.Some?
      && GetArgumentValues(t, types, ByEightbyte).1[j] == Some(StackInteger(bs.value, types[j].kind == IntegerArg(true)))
  {
    var sp := ReadUnsigned(t.regs.value, RSP);
    GetArgumentValuesMatches(t, types, j, ByEightbyte);
    EveryEligibleCount(types, j);
    EightbyteStackBytes(types, j);
    StackSlotReadable(t.mem, sp, types, j, ByEightbyte);
    ExpectedInSlot(t.regs.value, t.mem, sp, types, j);
  }

  /** Slot `j` of a call whose slot can be read is described at its own
      eightbyte. */
  lemma ExpectedInSlot(rf: RegisterFile, mem: Memory, sp: u64, types: seq<ArgType>, j: nat)
    requires 6 <= j < |types| && Eligible(types[j])
    requires CountEligible(types, j) == j && StackBytes(types, j, ByEightbyte) == 8 * (j - 6)
    requires ReadBytes(mem, SlotAddress(sp, types, j, ByEightbyte), ByteWidth(types[j].bitSize.value)).Some?
    ensures var bs := ReadBytes(mem, (sp + 8 + 8 * (j - 6)) % TWO_TO_64, ByteWidth(types[j].bitSize.value));
      && bs.Some?
      && ExpectedArgument(rf, mem, sp, types, j, ByEightbyte) == Some(StackInteger(bs.value, types[j].kind == IntegerArg(true)))
  {
    var addr := SlotAddress(sp, types, j, ByEightbyte);
    EightbyteAddress(sp, types, j, addr);
    var bs := ReadBytes(mem, addr, ByteWidth(types[j].bitSize.value));
    StackArgumentAt(rf, mem, sp, types, j, ByEightbyte, addr, bs.value);
  }

  /** Under the eightbyte rule, slot `j` lies `j - 6` eightbytes above the
      first stack argument. */
  lemma EightbyteAddress(sp: u64, types: seq<ArgType>, j: nat, addr: int)
    requires j <= |types| && StackBytes(types, j, ByEightbyte) == 8 * (j - 6)
    requires addr == SlotAddress(sp, types, j, ByEightbyte)
    ensures addr == (sp + 8 + 8 * (j - 6)) % TWO_TO_64
  {
    SameAddress(sp, StackBytes(types, j, ByEightbyte), j - 6, addr);
  }

  lemma SameAddress(sp: int, off: int, m: int, addr: int)
    requires off == 8 * m && addr == (sp + 8 + off) % TWO_TO_64
    ensures addr == (sp + 8 + 8 * m) % TWO_TO_64
  {
  }

  /** A slot read from the stack, with its address and bytes named. */
  lemma StackArgumentAt(rf: RegisterFile, mem: Memory, sp: u64, types: seq<ArgType>, j: nat, rule: StackRule, addr: int, bs: seq<byte>)
    requires j < |types| && Eligible(types[j]) && CountEligible(types, j) >= 6
    requires addr == SlotAddress(sp, types, j, rule)
    requires ReadBytes(mem, addr, ByteWidth(types[j].bitSize.value)) == Some(bs)
    ensures ExpectedArgument(rf, mem, sp, types, j, rule) == Some(StackInteger(bs, types[j].kind == IntegerArg(true)))
  {
  }

  /** The slot `j` of a readable stack can be read. */
  lemma StackSlotReadable(mem: Memory, sp: u64, types: seq<ArgType>, j: nat, rule: StackRule)
    requires j < |types| && Eligible(types[j]) && CountEligible(types, j) >= 6
    requires StackReadable(mem, sp, types, j + 1, rule)
    ensures ReadBytes(mem, SlotAddress(sp, types, j, rule), ByteWidth(types[j].bitSize.value)).Some?
  {
  }
}
