# System V x86-64 ABI plugin of LLDB, in Dafny

This project models `ABISysV_x86_64`, the plugin that tells the LLDB
debugger how a function call works on x86-64 under the System V calling
convention, including the Swift variant of that convention. The model covers:

- the register table: which register plays which generic role (argument
  1–6, stack pointer, frame pointer, program counter), the pointer return
  register `rax`, and the 128-byte red zone;
- which targets get the plugin (`CreateInstance`);
- setting up a call from the debugger: six argument registers, the
  aligned stack, the pushed return address, rsp and rip
  (`PrepareTrivialCall`);
- reading the integer and pointer arguments of a stopped function from
  its registers and stack (`ReadIntegerArgument`, `GetArgumentValues`);
- writing a simple return value (`SetReturnValueObject`);
- reading a return value: scalars (`GetReturnValueObjectSimple`), and
  aggregates through the flattening of their fields
  (`FlattenAggregateType`), the main classification loop
  (`GetReturnValueObjectImpl`) and the nested extraction helper
  (`ExtractBytesFromRegisters`);
- the two fallback unwind plans (`CreateFunctionEntryUnwindPlan`,
  `CreateDefaultUnwindPlan`);
- the callee-saved and volatile register sets (`RegisterIsCalleeSaved`,
  `RegisterIsVolatile`).

The debugged thread is a value. `Inferior` pairs an optional register
file (absent when the thread has no register context) with byte-addressed
memory. Each register and memory write can fail, and the model
returns that failure. Every 64-bit address computation wraps modulo 2^64
explicitly. Return values are byte buffers, as the plugin's data extractor
sees them, or the address of a value in memory.

Modules follow the structure of the source file:

| file | module | what |
|---|---|---|
| base.dfy | `Base` | powers of two, little-endian encoding, two's complement, byte buffers |
| registers.dfy | `Registers` | the register table, generic roles, callee-saved names |
| types.dfy | `Types` | the compiler types the plugin asks about |
| machine.dfy | `Machine` | register file and memory of the debugged thread |
| target_filter.dfy | `TargetFilter` | `CreateInstance` |
| call_setup.dfy | `CallSetup` | `PrepareTrivialCall` |
| arguments.dfy | `Arguments` | `ReadIntegerArgument`, `GetArgumentValues` |
| call_roundtrip.dfy | `CallRoundTrip` | arguments written by call setup read back |
| stack_slots.dfy | `StackSlots` | arguments passed on the stack, worked through |
| simple_return.dfy | `SimpleReturn` | `SetReturnValueObject`, `GetReturnValueObjectSimple` |
| aggregate_return.dfy | `AggregateReturn` | `FlattenAggregateType`, `GetReturnValueObjectImpl` |
| nested_extract.dfy | `NestedExtract` | `ExtractBytesFromRegisters` |
| offset_placement.dfy | `OffsetPlacement` | integer fields placed by their own offset |
| return_examples.dfy | `ReturnExamples` | aggregates returned by value, worked through |
| unwind.dfy | `Unwind` | the two unwind plans and what they recover |

## Model

| member | source | states |
|---|---|---|
| Registers.RegisterForRole | source/Plugins/ABI/SysV-x86_64/ABISysV_x86_64.cpp:102-186 | a register found for a generic role carries that role in the register table |
| Registers.RoleLookupMatchesTable | source/Plugins/ABI/SysV-x86_64/ABISysV_x86_64.cpp:102-186 | the role lookup finds a register exactly when the table gives that register the role |
| Registers.RoleTable | source/Plugins/ABI/SysV-x86_64/ABISysV_x86_64.cpp:102-186 | arguments 1–6 are rdi, rsi, rdx, rcx, r8, r9; only roles 1–6 are argument roles; sp, fp and pc are rsp, rbp and rip |
| Registers.RegisterIsCalleeSaved | source/Plugins/ABI/SysV-x86_64/ABISysV_x86_64.cpp:1434-1445 | a missing register is not callee-saved; a named register is callee-saved exactly when its name is one of the fifteen listed names |
| Registers.RegisterIsVolatile | source/Plugins/ABI/SysV-x86_64/ABISysV_x86_64.cpp:1421-1423 | a register is volatile exactly when it is not callee-saved, so a missing register is volatile |
| Registers.CalleeSavedMatchesTable | source/Plugins/ABI/SysV-x86_64/ABISysV_x86_64.cpp:1434-1445 | among the table's registers, exactly rbx, rbp, rsp, r12–r15 and rip are callee-saved by their primary name |
| Registers.ArgumentRegistersVolatile | source/Plugins/ABI/SysV-x86_64/ABISysV_x86_64.cpp:1421-1445 | the six argument registers, under both of their names, and the pointer return register rax are volatile |
| Registers.FrameRolesCalleeSaved | source/Plugins/ABI/SysV-x86_64/ABISysV_x86_64.cpp:1434-1445 | the registers holding the sp, fp and pc roles are callee-saved under both of their names |
| TargetFilter.CreateInstance | source/Plugins/ABI/SysV-x86_64/ABISysV_x86_64.cpp:222-255 | the plugin is created only for x86-64: always on the desktop and unknown systems, and on iOS, tvOS and watchOS only in the Mac Catalyst, simulator or unknown environment |
| TargetFilter.EnvironmentMattersOnlyOnEmbedded | source/Plugins/ABI/SysV-x86_64/ABISysV_x86_64.cpp:227-250 | outside the embedded systems the environment never changes the decision |
| Machine.WritePointer | source/Plugins/ABI/SysV-x86_64/ABISysV_x86_64.cpp:317-318 | a pointer write succeeds exactly when eight bytes are writable; it stores the eight little-endian bytes there and changes nothing else |
| Machine.ReadBackPointer | source/Plugins/ABI/SysV-x86_64/ABISysV_x86_64.cpp:317-318 | the eight bytes read back after a pointer write are the pointer's little-endian bytes |
| CallSetup.CallStack | source/Plugins/ABI/SysV-x86_64/ABISysV_x86_64.cpp:300-302 | the stack pointer after alignment and the push is 8 modulo 16, less than 24 below the given one, and wraps to 2^64 - 8 for a stack pointer below 16 |
| CallSetup.WriteArguments | source/Plugins/ABI/SysV-x86_64/ABISysV_x86_64.cpp:281-293 | the argument writes succeed exactly when every argument register used is writable; each then holds its argument; no other register changes |
| CallSetup.PrepareTrivialCall | source/Plugins/ABI/SysV-x86_64/ABISysV_x86_64.cpp:257-336 | more than six arguments or no register context refuse the call and change nothing; otherwise success exactly when every write can be made, and then the argument registers hold the arguments, rsp the aligned stack, rip the function and the stack top the return address |
| CallSetup.FrameWrittenAfterReturnAddress | source/Plugins/ABI/SysV-x86_64/ABISysV_x86_64.cpp:317-333 | when the return address cannot be pushed, the call fails with memory, rsp and rip as they were, while the argument registers, when writable, already hold the arguments |
| CallSetup.SetupPreservesOtherRegisters | source/Plugins/ABI/SysV-x86_64/ABISysV_x86_64.cpp:281-333 | a successful setup changes no register other than the argument registers used, rsp and rip |
| Arguments.SignExtend | source/Plugins/ABI/SysV-x86_64/ABISysV_x86_64.cpp:350-351 | sign extension keeps the low bits; a value with a clear sign bit is unchanged, and one with the sign bit set has every higher bit set |
| Arguments.ReadIntegerArgument | source/Plugins/ABI/SysV-x86_64/ABISysV_x86_64.cpp:338-363 | an integer wider than 64 bits fails without moving; one of the first six comes from the next argument register, sign-extended if signed; a later one is read from the stack cursor, succeeding exactly when its bytes are readable and then moving the cursor |
| Arguments.GetArgumentValues | source/Plugins/ABI/SysV-x86_64/ABISysV_x86_64.cpp:365-436 | the extraction succeeds exactly when there is a register context, rsp is non-zero and every type has a size; non-integer, non-pointer values are left unset |
| Arguments.GetArgumentValuesMatches | source/Plugins/ABI/SysV-x86_64/ABISysV_x86_64.cpp:365-436 | each extracted value is its expected value: the argument register, or the stack slot after the return address and the earlier stack arguments |
| Arguments.EightbyteSlots | source/Plugins/ABI/SysV-x86_64/ABISysV_x86_64.cpp:356-358 | with stack arguments each in an eightbyte of its own, the seventh and later arguments are read from rsp + 8, rsp + 16, … |
| CallRoundTrip.ArgumentsRoundTrip | source/Plugins/ABI/SysV-x86_64/ABISysV_x86_64.cpp:257-436 | after a successful call setup, reading up to six 64-bit integer or pointer arguments returns exactly the arguments written |
| StackSlots.StackSlotsAsWritten | source/Plugins/ABI/SysV-x86_64/ABISysV_x86_64.cpp:356-358 | with eight `unsigned int` arguments, 1 and 2 passed on the stack, the eighth reads 0 |
| StackSlots.StackSlotsByEightbyte | source/Plugins/ABI/SysV-x86_64/ABISysV_x86_64.cpp:356-358 | with eightbyte slots the same call reads back 1 and 2 |
| SimpleReturn.GetReturnValueObjectSimple | source/Plugins/ABI/SysV-x86_64/ABISysV_x86_64.cpp:535-716 | integers of 1, 2, 4 or 8 bytes are the low bytes of rax reinterpreted in the return type; pointers are rax; float and double are the leading bytes of xmm0; vectors up to 32 bytes are xmm0 then xmm1; nothing else is simple |
| SimpleReturn.SetReturnValueObject | source/Plugins/ABI/SysV-x86_64/ABISysV_x86_64.cpp:438-533 | a missing value or type is refused; an integer or pointer of at most 8 bytes goes to rax, other registers unchanged; a float of at most 8 bytes goes to xmm0, zero-filled; every other type is refused |
| SimpleReturn.SetThenGetInteger | source/Plugins/ABI/SysV-x86_64/ABISysV_x86_64.cpp:438-716 | an integer return value that is set reads back as the same value in its type |
| SimpleReturn.SetThenGetUnsigned | source/Plugins/ABI/SysV-x86_64/ABISysV_x86_64.cpp:438-716 | an unsigned integer return value that is set reads back as its little-endian value |
| SimpleReturn.SetThenGetPointer | source/Plugins/ABI/SysV-x86_64/ABISysV_x86_64.cpp:438-716 | a pointer return value that is set reads back as the same address |
| SimpleReturn.SetThenGetFloat | source/Plugins/ABI/SysV-x86_64/ABISysV_x86_64.cpp:438-716 | a float or double return value that is set reads back as the same bytes |
| SimpleReturn.LowHalfAllOnes | source/Plugins/ABI/SysV-x86_64/ABISysV_x86_64.cpp:577-583 | 0xFFFFFFFF in rax is -1 as an `int` and 4294967295 as an `unsigned int` |
| AggregateReturn.FlattenAggregateType | source/Plugins/ABI/SysV-x86_64/ABISysV_x86_64.cpp:960-1002 | the flattening yields only integer, pointer and float fields of known non-zero size, and fails at a field of size zero |
| AggregateReturn.FlattenShift | source/Plugins/ABI/SysV-x86_64/ABISysV_x86_64.cpp:960-1002 | flattening at a base offset is the flattening at zero with every offset moved by the base |
| AggregateReturn.FlattenSucceeds | source/Plugins/ABI/SysV-x86_64/ABISysV_x86_64.cpp:960-1002 | an aggregate whose fields all have a size, at every depth, always flattens |
| AggregateReturn.FlattenFailsOnUnsized | source/Plugins/ABI/SysV-x86_64/ABISysV_x86_64.cpp:960-1002 | an aggregate with a field of unknown or zero size at any depth does not flatten |
| AggregateReturn.FlattenIffSized | source/Plugins/ABI/SysV-x86_64/ABISysV_x86_64.cpp:960-1002 | an aggregate flattens exactly when every field at every depth has a known non-zero size |
| AggregateReturn.FlattenPrimitiveFields | source/Plugins/ABI/SysV-x86_64/ABISysV_x86_64.cpp:960-1002 | an aggregate of primitive fields flattens to those fields at their byte offsets |
| AggregateReturn.PlaceInteger | source/Plugins/ABI/SysV-x86_64/ABISysV_x86_64.cpp:1168-1218 | an integer field comes from the rest of rax if it fits, else starts rdx; outside Swift only rax and rdx are used; Swift adds rcx and r8 up to 32 bytes; no register is found exactly when the counters are exhausted |
| AggregateReturn.SwiftCounterMovesBack | source/Plugins/ABI/SysV-x86_64/ABISysV_x86_64.cpp:1192-1196 | a Swift field pushed into rcx sets the integer counter to 8 plus its width, so the next field is taken from rdx again |
| AggregateReturn.FloatStep | source/Plugins/ABI/SysV-x86_64/ABISysV_x86_64.cpp:1219-1298 | a long double puts the aggregate in memory; a double takes xmm0 or xmm1; a float off a four-byte boundary puts it in memory; other floats share an integer register or take half of a vector register |
| AggregateReturn.GetReturnValueObjectImpl | source/Plugins/ABI/SysV-x86_64/ABISysV_x86_64.cpp:1004-1368 | a simple value is returned as such; an aggregate that cannot go in registers, is too large, or does not flatten is in memory; otherwise the main loop decides, yielding a buffer the size of the register space |
| AggregateReturn.InMemoryAtRax | source/Plugins/ABI/SysV-x86_64/ABISysV_x86_64.cpp:1354-1365 | an aggregate kept out of registers, or sent to memory by a field, is returned as the memory at the address in rax under the C convention, and not at all under Swift |
| AggregateReturn.OverflowAbandons | source/Plugins/ABI/SysV-x86_64/ABISysV_x86_64.cpp:1187-1199 | outside Swift, an integer field met with rdx partly used and too wide for the rest of it finds no register, and the main loop gives up |
| AggregateReturn.OverflowGivesNothing | source/Plugins/ABI/SysV-x86_64/ABISysV_x86_64.cpp:1319-1322 | a C aggregate whose main loop reaches such a field has no return value at all |
| AggregateReturn.GetReturnValueByOffset | source/Plugins/ABI/SysV-x86_64/ABISysV_x86_64.cpp:1174-1186 | the corrected return value: the main loop with each integer field taken from its own offset within rax:rdx |
| NestedExtract.DoubleSource | source/Plugins/ABI/SysV-x86_64/ABISysV_x86_64.cpp:839-847 | a 64-bit field comes from xmm0 when no vector bytes are used, from xmm1 after eight, never from xmm2, and from nowhere in between |
| NestedExtract.SingleSource | source/Plugins/ABI/SysV-x86_64/ABISysV_x86_64.cpp:908-917 | a float not shared with integers comes from xmm0, then xmm1, and for Swift xmm2 |
| NestedExtract.ExtractBytesFromRegisters | source/Plugins/ABI/SysV-x86_64/ABISysV_x86_64.cpp:718-953 | the nested extraction keeps the buffer size, never clears the memory flag, never gives back vector bytes, and never writes before its aggregate's own offset |
| NestedExtract.ExtractAgreesWithMainLoop | source/Plugins/ABI/SysV-x86_64/ABISysV_x86_64.cpp:718-953 | on a flat aggregate of integers, the nested extraction succeeds with the same counters and bytes as the main loop whenever the main loop finishes |
| OffsetPlacement.ByOffsetRecoversImage | source/Plugins/ABI/SysV-x86_64/ABISysV_x86_64.cpp:1168-1218 | with fields taken by offset, a C struct of integers, none straddling rax and rdx, is returned as its own image: each field's bytes from its own offset in rax:rdx, padding zero |
| OffsetPlacement.PackedAgrees | source/Plugins/ABI/SysV-x86_64/ABISysV_x86_64.cpp:1099-1199 | on a C struct of integers without padding between fields, none straddling rax and rdx, the recovery as written equals the recovery by offset, because the counters start at the first field's offset |
| OffsetPlacement.PackedRecoversImage | source/Plugins/ABI/SysV-x86_64/ABISysV_x86_64.cpp:1168-1218 | the recovery as written returns such a struct as its own image in rax:rdx |
| ReturnExamples.FirstFieldAtOffset | source/Plugins/ABI/SysV-x86_64/ABISysV_x86_64.cpp:1099-1104 | a struct whose only long sits at offset 8 is zeros then rdx: the counters skip the bytes before the first field |
| ReturnExamples.PairOfLongs | source/Plugins/ABI/SysV-x86_64/ABISysV_x86_64.cpp:1168-1186 | `struct { long; long; }` is rax followed by rdx |
| ReturnExamples.PairOfFloats | source/Plugins/ABI/SysV-x86_64/ABISysV_x86_64.cpp:1219-1298 | `struct { float; float; }` is the low eight bytes of xmm0 |
| ReturnExamples.DoubleThenLong | source/Plugins/ABI/SysV-x86_64/ABISysV_x86_64.cpp:1110-1298 | `struct { double; long; }` is xmm0's low eight bytes, then rax |
| ReturnExamples.LongDoubleInMemory | source/Plugins/ABI/SysV-x86_64/ABISysV_x86_64.cpp:1221-1223 | an aggregate holding a long double is at the address in rax |
| ReturnExamples.MisalignedFloatInMemory | source/Plugins/ABI/SysV-x86_64/ABISysV_x86_64.cpp:1219-1298 | a packed struct with a float at offset 1 is at the address in rax |
| ReturnExamples.ThreeLongsInMemory | source/Plugins/ABI/SysV-x86_64/ABISysV_x86_64.cpp:1022-1038 | a C struct of three longs exceeds 16 bytes and is at the address in rax |
| ReturnExamples.ThreeSwiftInts | source/Plugins/ABI/SysV-x86_64/ABISysV_x86_64.cpp:1168-1218 | a Swift struct of three Ints is rax, rdx, rcx |
| ReturnExamples.CharThenIntAsWritten | source/Plugins/ABI/SysV-x86_64/ABISysV_x86_64.cpp:1174-1186 | as written, the `int` of `struct { char; int; }` is taken from bytes 1..5 of rax |
| ReturnExamples.PaddingAsWritten | source/Plugins/ABI/SysV-x86_64/ABISysV_x86_64.cpp:1174-1186 | as written, `{ 'A', 7 }` comes back with its `int` reading 0x07000000 |
| ReturnExamples.CharThenIntByOffset | source/Plugins/ABI/SysV-x86_64/ABISysV_x86_64.cpp:1174-1186 | located by offset, the `int` comes from bytes 4..8 of rax |
| ReturnExamples.PaddingByOffset | source/Plugins/ABI/SysV-x86_64/ABISysV_x86_64.cpp:1174-1186 | located by offset, `{ 'A', 7 }` comes back with its `int` reading 7 |
| ReturnExamples.NestedPair | source/Plugins/ABI/SysV-x86_64/ABISysV_x86_64.cpp:718-953 | the nested extraction of `{ { int; int; }; long; }` is rax then rdx |
| Unwind.SetLocation | source/Plugins/ABI/SysV-x86_64/ABISysV_x86_64.cpp:1380-1384 | setting a register's rule adds it to the row, keeps an existing rule unless replacing is allowed, and leaves the other rules alone |
| Unwind.CreateFunctionEntryUnwindPlan | source/Plugins/ABI/SysV-x86_64/ABISysV_x86_64.cpp:1373-1388 | one DWARF row: CFA is rsp + 8, rip is saved at CFA - 8, rsp is CFA itself; not from the compiler |
| Unwind.CreateDefaultUnwindPlan | source/Plugins/ABI/SysV-x86_64/ABISysV_x86_64.cpp:1395-1419 | one DWARF row at offset 0: CFA is rbp + 16, rbp is saved at CFA - 16, rip at CFA - 8, rsp is CFA; not from the compiler, not valid everywhere, not for trap handlers |
| Unwind.EntryPlanAfterCallSetup | source/Plugins/ABI/SysV-x86_64/ABISysV_x86_64.cpp:1373-1388 | on the thread a call setup leaves, the entry plan recovers the return address as the caller's pc and the aligned stack as its sp |
| Unwind.DefaultPlanOnStandardFrame | source/Plugins/ABI/SysV-x86_64/ABISysV_x86_64.cpp:1395-1419 | on a frame with the saved rbp at rbp and the return address above it, the default plan recovers rbp, rip and rsp = rbp + 16 |
| Unwind.DefaultPlanAfterPrologue | source/Plugins/ABI/SysV-x86_64/ABISysV_x86_64.cpp:1373-1419 | after `push rbp; mov rbp, rsp`, the default plan recovers the same pc and sp as the entry plan did before it, and the caller's rbp |

## Left out

- Logging, `ConstString` interning, plugin registration, name and version
  (`Initialize`, `Terminate`, `GetPluginName*`, `GetPluginVersion`, lines
  1447-1467) have no effect on the values computed.
- `GetRegisterInfoArray` and the one-time constification of register
  names are kept only as the register table's data.
- The process and target lookups (`GetProcess`, `GetTarget`, byte order,
  address size): the model is little-endian with 8-byte addresses. A
  missing process during call setup is not modelled.
- The type system is an input. `CanPassInRegisters` is a flag on the
  type. Bitfields, the `eTypeInstanceIsPointer` test on fields (line
  1171), and zero-width bitfields are not modelled.
- Floating-point values are kept as their bytes; no value is interpreted
  as a number. This includes `long double` and the register `mm0`
  fallback of the simple float case.
- The `uint32_t` counters and offsets of the main loop never wrap: no
  aggregate within the 16- or 32-byte limit can reach 2^32.
- `Splice`: a copy that would land outside the result buffer is skipped.
  The source does not check the destination; no admitted aggregate
  reaches that case.
- The has-children branch of the main loop cannot be reached, because
  flattening yields only primitive fields. `ExtractBytesFromRegisters` is
  therefore modelled on its own (`NestedExtract`).
- The `xmm2` branch of the 64-bit case of `ExtractBytesFromRegisters`
  (lines 843-844) is dead code. The model keeps the test order, so that
  register is never chosen.
- The reference and small-Swift-enum tests of the main loop (lines
  1165-1173) are kept in `IntegerClass`, but they never decide anything.
  Flattening yields only integer, enumeration, pointer and floating-point
  fields.
- The `break` on a field of width zero (lines 1146-1147) cannot be
  reached, because flattening refuses such fields.
- `UnwindPlan.cpp` and the register context header are not part of this
  model. A plan is a list of rows with the fields the plugin sets.
  Recovering a register from a row is the plain CFA arithmetic the rules
  describe.
- Unwind.PushFramePointer: the prologue `push rbp; mov rbp, rsp` is
  machine behaviour, not plugin code. It is modelled only to state what
  the default plan recovers after it.
- The plan builders always return true, as in the source. The model's
  functions return the plan itself.
- The rows for `xmm0`–`xmm2` use DWARF numbers 17–19, from the register
  enumeration at lines 38-100.
- CallSetup.PrepareTrivialCall: more than six arguments are refused, as
  in the source. Stack arguments for calls are not modelled.
- Arguments.ReadIntegerArgument: a failed stack read leaves the cursor
  where it was, and `GetArgumentValues` ignores the failure. An argument
  wider than 64 bits consumes no register, as in the source.
- Arguments.SignExtend: extends from bit `bits - 1`, the top bit of a
  `bits`-bit value, as the call at line 351 uses `Scalar::SignExtend`
  with the argument's bit width. `Scalar` is not part of this model. If
  its argument were instead the sign bit's position, a 32-bit value would
  be extended from bit 32.
- The null entry check of `GetArgumentValues` (lines 413-414) has no
  counterpart: the values are a sequence of types, and none can be missing.
- Arguments.StackInteger: a signed stack argument is sign-extended from
  its byte width. The source leaves this to `ReadScalarIntegerFromMemory`,
  which is not part of this model.
- RED_ZONE_SIZE and POINTER_RETURN_REGISTER are constants
  (`GetRedZoneSize`, `GetPointerReturnRegister`, lines 212-217). They
  have no behaviour beyond their value.

## Findings

| source | as written | input that shows it | evidently intended | confidence | as-written member | corrected member |
|---|---|---|---|---|---|---|
| source/Plugins/ABI/SysV-x86_64/ABISysV_x86_64.cpp:1174-1186 | an integer field is copied from rax at the running count of integer bytes, `integer_bytes`, not at its own offset; padding before a field shifts every later field | `struct { char c; int i; }` returning `{ 'A', 7 }`: rax is 0x0000000700000041, and `i` is read from bytes 1..5 of rax as 0x07000000 | the field taken from its own offset within the eightbyte, bytes 4..8 of rax, reading 7 | not executed | ReturnExamples.PaddingAsWritten | ReturnExamples.PaddingByOffset |
| source/Plugins/ABI/SysV-x86_64/ABISysV_x86_64.cpp:356-358 | the stack cursor moves by each argument's byte width | eight `unsigned int` arguments with the seventh (1) at rsp + 8 and the eighth (2) at rsp + 16: the eighth is read from rsp + 12 and comes back as 0 | each stack argument occupies an eightbyte of its own (section 3.2.3 of the System V AMD64 psABI), so the cursor moves by 8 | not executed | StackSlots.StackSlotsAsWritten | StackSlots.StackSlotsByEightbyte |
