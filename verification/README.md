# T4P4S: models and proofs

T4P4S compiles P4 programs to C and ships the C runtime that moves packets. This project models five parts of
it in Dafny and proves what they are for. Nothing here was executed; every statement is a contract that the
verifier checks for all inputs, all runs or all reachable states.

**Expression compiler** (`Bits`, `Words`, `P4Expr`, `Names`, `CLang`, `ExprCompiler`, `ExprValues`, `ExprOps`,
`ExprCorrect`, `ExprOutcomes`). Trees of P4 `bit<w>` and `bool` expressions with the meaning of section 8.5 of the P4_16
language specification, version 1.0.0; C statements and expressions with typed values, integer promotions,
conversions and wrap-around, and no value for a shift by the width or more; and the generator with its buffer
of hoisted statements and its name counter. The generator does exactly what `Format` says. What `Format`
produces is undefined in this model of C exactly when some shift in the tree is by 32 or more, and otherwise
computes the P4 value of the tree modulo 2^32, and the P4 value itself unless a 32-bit concatenation of two
operands of C type `int` sets the sign bit; comparisons and shift counts on the way have to agree, and when each
one does is proved exactly. `ExprOutcomes` says for every operator, over fields of any width, what the compiled
code evaluates to in the usual arithmetic, and follows an assignment from the tree to the bits of the packet.

**Replicated lookup tables** (`Replicas`, `Progress`). One writer with a step for the start and the end of each table
write and one per swapped lcore; lcores that copy their table pointers one by one at the start of a packet;
any number of tables, lcores and replicas (two or more). Safety and version order hold on every interleaving,
and the sequential code of `CHANGE_TABLE` gives the same outcome as any interleaved promote. No lcore is ever
blocked, and every promote can be finished.

**Parse, header operations, deparse** (`Memory`, `Deparse`, `Storage`, `Emission`, `Exactness`, `Packet`,
`ParserRuns`, `Labels`, `Scenarios`). One flat byte memory with the packet buffer and the temporary header storage; the descriptor as a
class whose methods are the generated functions; the coalescing copy loop. A run of the parser is determined by
memory and the state it starts in. The deparsed packet is right for every content of memory if and only if no
block is copied over the source of a later one. That never happens when headers were only added, nor when the valid
ones lie in one stretch of the packet with no absent one emitted in between, as after the removal of trailing headers. A removal in other places can make
it happen; `Scenarios` drives packets through all of these, down to the bytes that leave.

**Bit-field access** (`Sequences`, `Bits`, `Fields`). Packet memory as a row of bits in network order; table masks, loads,
byte swaps, shifts and stores.

**Control-plane channel** (`Fifo`, `CellPool`, `Channel`, `Wire`, `Messages`, `Builder`, `Handlers`, `Codec`,
`RoundTrip`, `Digests`, `OnTheWire`, `Framing`), and transmit batching (`Transmit`). Ring queues, linked cell lists, the
threads that pass cells through the queues, the message structures byte by byte with every offset written out in
`OnTheWire`, framing over a stream with arbitrary short reads and writes.

Where code and intention part:

- A concatenation of total width 32 whose operands have C type `int` gives a negative C value as soon as its
  top bit is set (`src/utils/codegen.sugar.py:1697`): 2^32 too small. Masks and stores undo that, bitwise
  operators and `?:` pass it on (`ExprValues.Dropped`), comparisons can come out wrong, and a shift by such a
  value is undefined. `ExprCorrect.ComparisonExactly` says exactly when a comparison is right, for all six
  operators and all common types, and `ExprCorrect.ShiftExactly` when a shift is; `ExprCorrect.EqualityGoesWrong`,
  `ExprCorrect.OrderGoesWrong` and `ExprCorrect.ShiftGoesWrong` are concrete trees and inputs where they are not.
- A bare variable on the right of a field assignment is not formatted as an expression but copied with `memcpy`,
  and a variable of the control block wider than 8 bits is byte-swapped although the field accessor expects
  host order (`src/utils/codegen.sugar.py:258-267`). It reaches the field rightly if and only if its bytes read
  the same in both directions (`ExprCorrect.ControlLocalStored`); a 16-bit 0x0102 arrives as 0x0201
  (`ExprCorrect.LocalGoesWrong`). Action parameters arrive rightly, although for widths from 17 to 24 the top
  byte of the temporary is never set (`ExprCorrect.ParameterStored`).
- A select expression without a matching case ends the parser without dropping the packet and without setting
  the payload size (`src/utils/codegen.sugar.py:1062-1105`), so the deparser works with the size of an earlier
  packet. `Packet.PacketDescriptor.RunParser` says exactly when; `Scenarios.MissedCase` is a parser with two
  packets of which the second leaves with the payload size of the first.
- A header removed while another is inserted can be deparsed wrongly: the stash copies headers to the
  temporary storage but the copy loop still reads them from the packet
  (`src/hardware_indep/dataplane_deparse.c.py:37-67`). `Exactness.DeparsedExactly` says exactly
  when it is right; `Exactness.RemovalComesOutWrong` and `Scenarios.LostHeader` are a state and a packet for
  which it is not.
- A header that is emitted but absent from the packet splits a run of headers that lie one after the other, because
  the null pointer ends the inner loop (`src/hardware_indep/dataplane_deparse.c.py:107-114`). What would be copied in
  one go is then copied in two, and the first copy can overwrite the source of the second: with a trailing header
  removed, a packet leaves as 1, 1 instead of 1, 2 (`Scenarios.AbsentBetween`); without the absent header it leaves
  rightly (`Scenarios.LastRemoved`).
- A match of an unknown kind has size zero (`src/hardware_dep/shared/ctrl_plane/messages.c:115-117`), so the handler
  does not get past it: all later matches have its address, and the action is read from there
  (`Handlers.UnknownKindStays`).
- A default action without parameters is refused by a buffer it just fills, because the check is `>=`
  (`src/hardware_dep/shared/ctrl_plane/messages.c:248`); see `RoundTrip.DefaultSentParts`, and
  `RoundTrip.ExactBufferRefused` for a concrete one.
- A message that claims to be shorter than its own header is reported like the end of the stream
  (`src/hardware_dep/shared/ctrl_plane/sock_helpers.c:46-57`); see `Framing.ReadP4Msg`.
  `Framing.ShortClaimEndsStream` shows what such a message does to those behind it.

Run `dafny verify dfyconfig.toml` to check the project.

## Model

| member | source | states |
|---|---|---|
| `ExprCorrect.FormatCorrect` | src/utils/codegen.sugar.py:1590-1717 | for every well-typed unsigned tree whose comparisons and shift counts agree, from any state in which the names to come are unused: running the hoisted statements in buffer order and then evaluating the returned expression gives the P4 value modulo 2^32, and the P4 value itself for trees without a 32-bit concatenation of two ints; it is undefined exactly when some shift, even in an arm not taken, is by 32 or more |
| `ExprCorrect.FormatExact` | src/utils/codegen.sugar.py:1590-1717 | trees without a 32-bit concatenation of two ints evaluate to exactly their P4 value, with no condition on comparisons |
| `ExprCorrect.CValueRight` | src/utils/codegen.sugar.py:1697-1698 | the C value of a tree has the low 32 bits of its P4 value and is the P4 value if and only if it is not negative; only 32-bit trees of a signed C type can be negative |
| `ExprCorrect.ComparisonExactly` | src/utils/codegen.sugar.py:1525-1529 | a compiled comparison of two right operands gives the P4 result if and only if the common type is unsigned, both or none of the values were dropped below zero, or the values happen to compare that way; otherwise it gives the opposite |
| `ExprCorrect.EqualityGoesWrong` | src/utils/codegen.sugar.py:1697-1698 | a concrete tree and input where `==` between a concatenation and a decimal literal is false in C and true in P4 |
| `ExprCorrect.OrderGoesWrong` | src/utils/codegen.sugar.py:1697-1698 | a concrete tree and input where `<` between two concatenations is true in C and false in P4 |
| `ExprCorrect.ShiftExactly` | src/utils/codegen.sugar.py:978-1000 | a compiled shift of two right operands is undefined if and only if its count is 32 or more, or dropped and thus negative; the outcome is right if and only if no count below 32 is dropped |
| `ExprCorrect.ShiftGoesWrong` | src/utils/codegen.sugar.py:1697-1698 | a concrete tree and input where a shift by zero is undefined in C |
| `ExprCorrect.AssignmentCorrect` | src/utils/codegen.sugar.py:252-275 | for every right-hand side that is not a bare variable: the temporary declared for a field assignment holds the full P4 value when the statements have run, 32-bit concatenations included; undefined in exactly the same cases |
| `ExprCorrect.CopyStored` | src/utils/codegen.sugar.py:258-267 | for a bare variable the temporary holds the copied bytes over whatever it held, byte-swapped for a control variable wider than 8 bits |
| `ExprCorrect.ParameterStored` | src/utils/codegen.sugar.py:266-267 | an action parameter reaches the field; the temporary as a whole equals it if and only if the width is not 17 to 24 or the byte that is never set happens to be zero |
| `ExprCorrect.ControlLocalStored` | src/utils/codegen.sugar.py:262-265 | a control variable reaches the field rightly if and only if it has at most 8 bits or the copied bytes read the same in both directions |
| `ExprCorrect.LocalGoesWrong` | src/utils/codegen.sugar.py:262-265 | a 16-bit control variable that holds 0x0102 is stored as 0x0201 |
| `ExprOutcomes.Arithmetic` | src/utils/codegen.sugar.py:978-1000 | the code for a sum, difference or product of two fields of w bits evaluates to it modulo 2^w |
| `ExprOutcomes.Shifts` | src/utils/codegen.sugar.py:978-1000 | the code for a shift of a field by another multiplies or divides by the power of two; it is undefined from a count of 32 on |
| `ExprOutcomes.Comparisons` | src/utils/codegen.sugar.py:1525-1529 | the code for each of the six comparisons of two fields compares them as unsigned numbers |
| `ExprOutcomes.Bitwises` | src/utils/codegen.sugar.py:1525-1529 | the code for and, or, exclusive or of two fields gives the operation on each of their bits |
| `ExprOutcomes.Concatenation` | src/utils/codegen.sugar.py:1697-1698 | the code for the concatenation of two fields of up to 32 bits together gives a * 2^v + b |
| `ExprOutcomes.Unaries` | src/utils/codegen.sugar.py:940-975 | the code for the negation, complement or cast of a field gives -a modulo 2^w, 2^w - 1 - a, or a modulo 2^v |
| `ExprOutcomes.Logic` | src/utils/codegen.sugar.py:940-975 | the code for boolean operators and the bit cast gives 1 or 0 as the variables say |
| `ExprOutcomes.Choice` | src/utils/codegen.sugar.py:1694-1695 | the code for a conditional gives the field that the condition picks |
| `ExprOutcomes.Nested` | src/utils/codegen.sugar.py:1590-1717 | the code for a tree that nests sum, concatenation, comparison, difference and complement under a conditional evaluates to the plain formula |
| `ExprOutcomes.FieldAssigned` | src/utils/codegen.sugar.py:252-275 | after the statements of an assignment have run and the accessor has stored their result, the field in the packet reads as the P4 value of the right-hand side, and other fields read as before |
| `ExprOutcomes.Decrement` | src/utils/codegen.sugar.py:252-275 | `f = f - 1` leaves the field in the packet one lower modulo 2^w |
| `Words.SwappedExactly` | src/hardware_dep/dpdk/data_plane/dpdk_lib_byteorder.c:24-26 | converting a word changes nothing if and only if its bytes read the same in both directions, and half of the result is enough to tell |
| `ExprOps.UnYields` | src/utils/codegen.sugar.py:940-975 | negation, complement, logical not and the bit and bool casts give the P4 value of the operator on any operand value, dropped ones included |
| `ExprOps.SubYields` | src/utils/codegen.sugar.py:1530-1533 | `left + (2^w - right)`, masked, is subtraction modulo 2^w for any operands with the right low w bits |
| `ExprOps.ArithYields` | src/utils/codegen.sugar.py:978-1000 | addition, multiplication and shifts, computed in the promoted container type with wrap-around and then masked, give the result modulo 2^w |
| `ExprOps.CompareYields` | src/utils/codegen.sugar.py:1525-1529 | an unmasked comparison compares what conversion to the common type makes of both operands |
| `ExprOps.BitwiseYields` | src/utils/codegen.sugar.py:1525-1529 | unmasked and, or, exclusive or give the bitwise result on the P4 values, 2^32 too small exactly if `DroppedBits` says so, for int, unsigned and long |
| `ExprOps.ConcatYields` | src/utils/codegen.sugar.py:1697-1698 | shift and or join two values; the result is 2^32 too small exactly if both operands are ints and it reaches 2^31 |
| `ExprOps.TruncatedYields` | src/utils/codegen.sugar.py:933-938 | mask, cast and masked temporary give the low w bits of any C value, negative ones included |
| `ExprCorrect.MuxCorrect` | src/utils/codegen.sugar.py:1694-1695 | `?:` gives the value of the chosen arm, converted to the common type, although the temporaries of both arms are hoisted and run |
| `ExprCorrect.ComplexCorrect` | src/utils/codegen.sugar.py:978-1000 | formatting the operands a second time leaves dead duplicates that do not change the result |
| `ExprValues.ValueHeld` | src/utils/codegen.sugar.py:1499-1539 | the P4 value of every tree fits the C type of its expression, or is 2^32 more than a negative number of that signed type; the latter for 32-bit trees only |
| `ExprValues.ConvertHeld` | src/utils/codegen.sugar.py:1525-1529 | conversion to the common type is exact, and to an unsigned one makes up for what was dropped |
| `ExprValues.CompareExactly` | src/utils/codegen.sugar.py:1525-1529 | the condition under which a comparison agrees is exact for each of the six operators and each common type |
| `ExprValues.IntCompareAgrees` | src/utils/codegen.sugar.py:1525-1529 | in the type int equality always agrees, and order exactly if both values are below 2^31 or none is |
| `ExprValues.ConcatsFitAgree` | src/utils/codegen.sugar.py:1697-1698 | in trees without a 32-bit concatenation of two ints nothing is dropped and all comparisons agree |
| `ExprValues.RankOfFormat` | src/utils/codegen.sugar.py:1590-1717 | the C type of the produced expression is a function of the tree alone |
| `P4Expr.ValueInType` | src/utils/codegen.sugar.py:143-154 | the P4 value of a well-typed tree of type bit<w> lies in [0, 2^w) |
| `Names.TextInjective` | src/compiler_common.py:206-221 | generated names are the same text only for the same purpose and counter, so all temporaries are distinct |
| `Names.ReadingOfPadded` | src/compiler_common.py:212 | the zero-padded counter can be read back, also from 10000 on |
| `CLang.EvalExtends` | src/compiler_common.py:169-171 | further declarations do not change the value of an expression |
| `ExprCompiler.Generator.GenerateVarName` | src/compiler_common.py:206-221 | the new name is not among those generated before: every generated name carries a value the counter has passed, and this one the next |
| `ExprCompiler.Generator.FormatTypeMask` | src/utils/codegen.sugar.py:143-154 | a mask temporary with 2^w - 1 in the container of w bits is appended |
| `ExprCompiler.Generator.Masking` | src/utils/codegen.sugar.py:922-938 | the buffer grows by the mask, the cast and the masked value, in that order, under consecutive names |
| `ExprCompiler.Generator.FormatComplexOp` | src/utils/codegen.sugar.py:978-1000 | the operands are formatted again; buffer, counter and result are those of `FormatComplex` |
| `ExprCompiler.Generator.FormatOperator` | src/utils/codegen.sugar.py:1499-1539 | buffer, counter and result are those of `Format` on an operator node |
| `ExprCompiler.Generator.FormatExpr` | src/utils/codegen.sugar.py:1590-1717 | buffer, counter and result are those of `Format`, for every tree |
| `ExprCompiler.Generator.FormatFieldAssignment` | src/utils/codegen.sugar.py:252-275 | the emitted code is the hoisted statements followed by the declaration of the value, or by the copy and the byte swap of a bare variable; the buffer is empty again |
| `Replicas.StepInv` | src/hardware_dep/dpdk/data_plane/dpdk_lib_change_tables.c:9-36 | the invariant of contents, pointers, copies and writer is kept by every step of the writer and of every lcore |
| `Replicas.RunInv` | src/hardware_dep/dpdk/data_plane/dpdk_lib_change_tables.c:22-36 | the invariant holds after every run |
| `Replicas.NoTornLookup` | src/hardware_dep/dpdk/data_plane/dpdk_lib_change_tables.c:22-36 | after any run no copy held by an lcore refers to the replica being written, and what it refers to is a whole version |
| `Replicas.ReplicaVersions` | src/hardware_dep/dpdk/data_plane/dpdk_lib_change_tables.c:79-90 | between promotes every replica of a table has all its updates; during one, all of them or all but the last, apart from the one being written |
| `Replicas.PacketSeesOneVersion` | src/hardware_dep/dpdk/main.c:100-109 | all lookups in a table while one packet is handled see the same content, whatever the writer does meanwhile |
| `Replicas.VersionsMoveForward` | src/hardware_dep/dpdk/main.c:100-109 | what an lcore sees of a table never loses updates, within a packet or from packet to packet |
| `Replicas.SleepLongEnough` | src/hardware_dep/dpdk/data_plane/dpdk_lib_change_tables.c:29 | ending the sleep keeps the invariant if and only if no lcore still holds a copy of an old replica |
| `Replicas.EarlyWakeTears` | src/hardware_dep/dpdk/data_plane/dpdk_lib_change_tables.c:29 | if the sleep ended now, some run would come to modify a replica that an lcore still uses if and only if some lcore holds a copy of an old replica |
| `Replicas.PromoteOutcome` | src/hardware_dep/dpdk/data_plane/dpdk_lib_change_tables.c:22-36 | a finished promote, interleaved with packets in any way, leaves tables and pointers as the sequential code does; that it can finish is `Progress.PromoteFinishes` |
| `Replicas.InitInv` | src/hardware_dep/dpdk/data_plane/dpdk_lib_init_tables.c:16-50 | the state after table creation satisfies the invariant |
| `Progress.NeverBlocked` | src/hardware_dep/dpdk/main.c:100-109 | in every reachable state each lcore can take its next step, whatever the writer does: start a packet, copy a pointer or end the packet; and it has no other |
| `Progress.PacketSteps` | src/hardware_dep/dpdk/main.c:100-109 | a packet takes one step to start, one for each table and one to end, however the steps of the writer and of other lcores are interleaved |
| `Progress.PacketEnds` | src/hardware_dep/dpdk/main.c:100-109 | a busy lcore can finish its packet by its own steps; nothing else changes, except that a sleeping writer no longer waits for it |
| `Progress.PromoteFinishes` | src/hardware_dep/dpdk/data_plane/dpdk_lib_change_tables.c:22-36 | from every state with the invariant some run without a new promote ends with the writer at rest |
| `Progress.PromoteCompletes` | src/hardware_dep/dpdk/data_plane/dpdk_lib_change_tables.c:22-36 | whenever the writer rests, each update of each table can be promoted to the end, and tables and pointers are then as the sequential code leaves them |
| `Progress.AllPromotes` | src/hardware_dep/dpdk/data_plane/dpdk_lib_change_tables.c:22-36 | any list of updates to any tables can be promoted one after the other; every table then has its own updates, in order |
| `Replicas.Socket.CreateTables` | src/hardware_dep/dpdk/data_plane/dpdk_lib_init_tables.c:16-50 | all replicas are equal, the first is active and every lcore points to it |
| `Replicas.Socket.ChangeReplica` | src/hardware_dep/dpdk/data_plane/dpdk_lib_change_tables.c:9-20 | every lcore points to the given replica of the table, and the other pointers are unchanged |
| `Replicas.Socket.ChangeTable` | src/hardware_dep/dpdk/data_plane/dpdk_lib_change_tables.c:22-36 | every replica has exactly one more update, the next replica is active, other tables are unchanged |
| `Deparse.BlocksHoldContents` | src/hardware_indep/dataplane_deparse.c.py:94-124 | coalescing adjacent headers loses nothing: the blocks hold the contents of the valid emitted headers in order, and are as long as the separately computed size |
| `Deparse.CopyBlocksExact` | src/hardware_indep/dataplane_deparse.c.py:94-124 | without overwriting a later source, the copies put the blocks' contents one after the other and change no other byte |
| `Deparse.DeliveredExactly` | src/hardware_indep/dataplane_deparse.c.py:94-124 | for blocks with disjoint sources: right for every content of memory if and only if no block is copied over the source of a later one |
| `Deparse.AdditionsDoNotClobber` | src/hardware_indep/dataplane_deparse.c.py:70-124 | if nothing extracted is missing or reordered, every source lies at or right of its destination and nothing is overwritten too early |
| `Deparse.RunMaximal` | src/hardware_indep/dataplane_deparse.c.py:104-119 | the headers copied in one go lie one after the other, and the next one does not follow them |
| `Deparse.StretchDoesNotClobber` | src/hardware_indep/dataplane_deparse.c.py:94-124 | if the valid emitted headers lie in one stretch of memory and no invalid one comes between, nothing is overwritten too early, whatever the destination |
| `Storage.SlotsInOrder` | src/hardware_indep/hdr_fld.c.py:34-66 | the slots of the temporary storage are disjoint, and each begins where the one before it ends |
| `Sequences.PartAtOffset` | src/hardware_indep/hdr_fld.c.py:34-66 | among parts laid one after the other, part i is what lies at the offset of i, and the last offset is the whole length |
| `Storage.RangesDisjoint` | src/hardware_indep/common.c.py:10-56 | the ranges of any two valid headers are disjoint |
| `Storage.StashKeeps` | src/hardware_indep/dataplane_deparse.c.py:37-67 | saving headers before the copy changes no valid header, emitted or not, and no byte of the packet buffer |
| `Storage.StashSaves` | src/hardware_indep/dataplane_deparse.c.py:53-55 | after it, the slot of every emitted header that the parser found holds the bytes of that header |
| `Emission.DeparseDelivers` | src/hardware_indep/dataplane_deparse.c.py:37-124 | the new packet is the emitted valid headers as they were, followed by the old bytes from the payload on, if no source is overwritten early |
| `Emission.AdditionsDeliver` | src/hardware_indep/dataplane_deparse.c.py:70-124 | the same with no condition on overlap, when every extracted header is emitted in order and others are interleaved anywhere |
| `Emission.FastPathIsSlowPath` | src/hardware_indep/dataplane_deparse.c.py:131-147 | if no pointer changed since parsing and headers are emitted in extraction order, saving, resizing and copying leave start, size and every byte of the packet |
| `Emission.InOrderEmitsAll` | src/hardware_indep/dataplane_deparse.c.py:131-147 | emission in extraction order of unchanged headers is a special case of adding nothing |
| `Emission.EndsRemoved` | src/hardware_indep/dataplane_deparse.c.py:94-124 | headers removed at the front and at the end of a packet leave the others in one stretch |
| `Exactness.DeparsedExactly` | src/hardware_indep/dataplane_deparse.c.py:37-124 | in every state of parsing and header operations with no valid header emitted twice: saving and copying are right for every content of memory if and only if no block is copied over the source of a later one |
| `Exactness.BlocksApart` | src/hardware_indep/dataplane_deparse.c.py:94-124 | coalesced blocks of headers that share no byte share no byte |
| `Exactness.OnlySourcesMatter` | src/hardware_indep/dataplane_deparse.c.py:94-124 | the copied region depends on the sources of the blocks alone |
| `Exactness.ClobberComesOutWrong` | src/hardware_indep/dataplane_deparse.c.py:37-67 | otherwise there is a memory content, a single one among zeros, that comes out wrong |
| `Exactness.RemovalComesOutWrong` | src/hardware_indep/dataplane_deparse.c.py:37-67 | a reachable state with a removed and an added header, and a memory, for which the deparsed bytes are three zeros instead of the headers' contents |
| `Scenarios.LostHeader` | src/hardware_indep/dataplane_deparse.c.py:37-124 | a packet parsed, changed and deparsed by the generated functions leaves as 0, 0, 0 instead of 0, 0, 1 |
| `Scenarios.MissedCase` | src/utils/codegen.sugar.py:1062-1105 | a packet without a matching case is neither dropped nor given a payload size, and leaves with the size of the packet before it |
| `Scenarios.LastRemoved` | src/hardware_indep/dataplane_deparse.c.py:94-147 | a packet 1, 2, 3 whose last header was removed leaves as 1, 2 |
| `Scenarios.AbsentBetween` | src/hardware_indep/dataplane_deparse.c.py:107-114 | the same packet leaves as 1, 1 if a header that it does not have is emitted between the two |
| `Scenarios.HeaderAdded` | src/hardware_indep/dataplane_deparse.c.py:70-147 | with a header 9 added between the first and the second it leaves as 1, 9, 2, 3, starting one byte earlier |
| `Scenarios.NothingChanged` | src/hardware_indep/dataplane_deparse.c.py:131-147 | unchanged it leaves as 1, 2, 3, on the fast path and on the full one |
| `Packet.RunsUnique` | src/hardware_indep/parser.c.py:331-366 | path and outcome of a run are determined by memory, descriptors and position at its start |
| `Packet.RunEnds` | src/hardware_indep/parser.c.py:331-366 | a run is accepted at accept, dropped at reject or where an extraction fails, and otherwise ends where the select expression has no case for the headers extracted so far |
| `ParserRuns.ResolvesExactly` | src/hardware_indep/parser.c.py:353-378 | components can be extracted if and only if no stack overflows and their headers fit into what is left of the packet; component i then gives the header it names or the next one of its stack, counted |
| `ParserRuns.ExtractsAll` | src/hardware_indep/parser.c.py:331-361 | what a path extracts is what all components of its states extract, one after the other |
| `ParserRuns.LaidLast` | src/hardware_indep/multi_parser.c.py:36-97 | after any extractions an extracted header points to where those before it end, by its last extraction, or nowhere if it is skipped |
| `ParserRuns.RunFollows` | src/hardware_indep/parser.c.py:331-366 | each state of a run is followed by the one it names, or by the one its select expression gives for the headers extracted up to there |
| `Labels.LoopRuns` | src/hardware_indep/parser.c.py:331-378 | a parser that extracts one-byte labels into a stack of two until one is 1: path and outcome of every packet by its length and its first two bytes |
| `Labels.Receive` | src/hardware_indep/parser.c.py:331-378 | such a packet is accepted with one label or two, with their pointers and its payload size, and otherwise dropped |
| `Packet.ExtractStored` | src/hardware_indep/multi_parser.c.py:36-97 | an extraction keeps the storage invariant and extends the tiling of the packet |
| `Packet.AssignCopies` | src/hardware_indep/common.c.py:10-23 | copying one header over another of its type gives it those bytes and changes no other valid header |
| `Packet.NextFills` | src/hardware_dep/shared/dataplane_hdr_fld_pkt.c:20-30 | the next extraction into a stack lands on the next header of that stack and no other |
| `Packet.PacketDescriptor.ResetHeaders` | src/hardware_indep/dataplane.c.py:39-52 | every header is invalid, every stack empty, the flag clear |
| `Packet.PacketDescriptor.StartPacket` | src/hardware_indep/dataplane.c.py:149-158 | pointers, stacks, flag, emit list and parse positions are reset; header sizes, parse marks and the payload size stay |
| `Packet.PacketDescriptor.ParserExtract` | src/hardware_indep/multi_parser.c.py:36-97 | descriptor, position and size after an extraction, or the failure at the end of the packet with the marks already set; extracted headers tile the packet prefix |
| `Packet.PacketDescriptor.ExtractIntoStack` | src/hardware_indep/parser.c.py:368-378 | the k-th extraction into a stack goes to its k-th header; a full stack is refused |
| `Packet.PacketDescriptor.ParserComponent` | src/hardware_indep/parser.c.py:287-300 | succeeds exactly if the stack has a free header and the packet as many bytes left as it takes; otherwise drops the packet; raises the flag if the program has a local header; descriptors and position are given exactly |
| `Packet.PacketDescriptor.ParserComponents` | src/hardware_indep/parser.c.py:353-361 | extracts exactly the resolved headers in order, or drops the packet; progress if any of them is not empty |
| `Packet.PacketDescriptor.RunParser` | src/hardware_indep/parser.c.py:331-366 | every run ends, for any graph whose cycles extract and any select function; each next state is the one named or the one select gives for the headers held there, and the descriptors are exactly those the extractions leave; it ends without a matching case if and only if all extractions succeeded and select has none for the final headers; only acceptance sets the payload size |
| `Packet.PacketDescriptor.ActivateHdr` | src/hardware_dep/shared/dataplane_hdr_fld_pkt.c:7-13 | the header points to its slot, nothing else changes, the flag is raised |
| `Packet.PacketDescriptor.DeactivateHdr` | src/hardware_dep/shared/dataplane_hdr_fld_pkt.c:15-18 | the header is invalid, nothing else changes, the flag is raised |
| `Packet.PacketDescriptor.SetHdrValid` | src/hardware_indep/common.c.py:40-46 | a valid header stays as it is; an invalid one gets its slot and the flag is raised; the invariant is kept |
| `Packet.PacketDescriptor.SetHdrInvalid` | src/hardware_indep/common.c.py:49-55 | the header is invalid afterwards; the flag is raised only if that is a change; other headers keep pointer and bytes |
| `Packet.PacketDescriptor.DoAssignment` | src/hardware_indep/common.c.py:10-23 | the destination gets the source's bytes and validity, every other header keeps pointer and bytes, and the flag is raised only if the destination's storage changes |
| `Packet.PacketDescriptor.StoreHeadersForDeparse` | src/hardware_indep/dataplane_deparse.c.py:37-67 | memory becomes the stash of the emitted headers and the deparse size their total length |
| `Packet.PacketDescriptor.ResizePacketOnDeparse` | src/hardware_indep/dataplane_deparse.c.py:70-91 | the end of the packet stays, its start moves; exits exactly if the headroom is too small |
| `Packet.PacketDescriptor.GatherRun` | src/hardware_indep/dataplane_deparse.c.py:104-119 | the inner loop finds the whole run: its headers lie one after the other, the next does not follow them; and its length |
| `Packet.PacketDescriptor.CopyDeparseContents` | src/hardware_indep/dataplane_deparse.c.py:94-124 | the nested loops perform exactly the block copies, one for each whole run of adjacent headers |
| `Packet.PacketDescriptor.DeparsePacket` | src/hardware_indep/dataplane_deparse.c.py:131-147 | nothing happens on the fast path or to a dropped packet; otherwise memory becomes what saving and copying make of it, which is the wanted packet wherever no source is overwritten early, and also, with no such condition, whenever the valid emitted headers lie in one stretch |
| `Packet.PacketDescriptor.WantedDelivered` | src/hardware_indep/dataplane_deparse.c.py:131-147 | what the three steps make of memory is the wanted packet |
| `Packet.PacketDescriptor.AdditionsAreClear` | src/hardware_indep/dataplane_deparse.c.py:70-124 | in any state reached by parsing and header operations, added headers alone never make the copies unsafe |
| `Packet.PacketDescriptor.FastPath` | src/hardware_indep/dataplane_deparse.c.py:131-147 | while the flag is clear, returning without copying leaves what the full path would have produced |
| `Fields.MaskCoversField` | src/hardware_indep/hdr_fld.c.py:96-111 | the generated mask selects exactly the bits of the field if and only if it ends inside the 32-bit word |
| `Fields.BitOfMask` | src/hardware_indep/hdr_fld.c.py:104-107 | which bits of the generated mask are set |
| `Fields.BitOfLoaded` | src/hardware_dep/dpdk/data_plane/dpdk_lib_byteorder.c:20-26 | a little-endian load and a byte swap give the memory bits in network order |
| `Fields.FldBytes` | src/hardware_dep/dpdk/data_plane/dpdk_primitives_impl.c:37-41 | the load of one, two or four bytes |
| `Fields.Get32FldImpl` | src/hardware_dep/dpdk/data_plane/dpdk_primitives_impl.c:103-109 | the result is the big-endian number in exactly the bits of the field |
| `Fields.GetIsFieldValue` | src/hardware_dep/dpdk/data_plane/dpdk_primitives_impl.c:103-109 | load, swap, mask and shift single out exactly the field |
| `Fields.Modify32ImplNetOrder` | src/hardware_dep/dpdk/data_plane/dpdk_primitives_impl.c:82-89 | exactly the bits of the field are replaced by the low bits of the value; every other bit of memory is unchanged |
| `Fields.StoreIsWritten` | src/hardware_dep/dpdk/data_plane/dpdk_primitives_impl.c:82-89 | a stored word changes only the bits of the field although four bytes are written |
| `Fields.GetAfterSet` | src/hardware_dep/dpdk/data_plane/dpdk_primitives.c:159-180 | reading a field after writing it gives the value modulo 2^width |
| `Fields.SetKeepsOthers` | src/hardware_dep/dpdk/data_plane/dpdk_primitives.c:159-180 | writing a field does not change what any disjoint field reads |
| `Fields.SetsCommute` | src/hardware_dep/dpdk/data_plane/dpdk_primitives_impl.c:82-109 | writes of different fields commute even when their four-byte windows overlap |
| `Fields.PackUnpack` | src/hardware_indep/hdr_fld.c.py:74-116 | after any sequence of writes to the fields of a header of any length, every field reads the last value written to it modulo 2^width, or its old value |
| `Fields.FieldSplits` | src/hardware_indep/hdr_fld.c.py:74-116 | a field is its first bits followed by its other bits, wherever it is cut |
| `Fields.FieldsOfByte` | src/hardware_indep/hdr_fld.c.py:74-116 | eight bits at a byte boundary are the byte; any first bits are its quotient, the others its remainder by a power of two |
| `Fields.Ipv4Fields` | src/hardware_indep/hdr_fld.c.py:74-116 | each of the twelve fields of an IPv4 header, at any address, by the bytes it is made of |
| `Fields.HandleAddress` | src/hardware_dep/dpdk/data_plane/dpdk_primitives.c:229-251 | the handle points at the first byte of the field and knows its first bit |
| `Fields.SetFld` | src/hardware_dep/dpdk/data_plane/dpdk_primitives.c:159-180 | setting a field of a header writes the bits at its cumulative offset |
| `Fields.GetFld` | src/hardware_dep/dpdk/data_plane/dpdk_primitives_impl.c:103-109 | reading a field of a header reads the bits at its cumulative offset |
| `Fifo.Queue.AddMsg` | src/hardware_dep/shared/ctrl_plane/fifo.c:36-49 | the element is last in the queue, unless the queue is full, in which case it is dropped silently |
| `Fifo.Queue.RemoveMsg` | src/hardware_dep/shared/ctrl_plane/fifo.c:51-66 | the oldest element is returned and removed; none from an empty queue |
| `Fifo.SlotsDiffer` | src/hardware_dep/shared/ctrl_plane/fifo.c:36-49 | queued elements never share a ring slot |
| `CellPool.Pool.constructor` | src/hardware_dep/shared/ctrl_plane/ctrl_plane_backend.c:180-195 | all cells are unused and have disjoint slices of the message buffer |
| `CellPool.Pool.TouchMemCell` | src/hardware_dep/shared/ctrl_plane/ctrl_plane_backend.c:307-329 | the first unused cell becomes the first used one; both lists stay well formed |
| `CellPool.Pool.Unlink` | src/hardware_dep/shared/ctrl_plane/ctrl_plane_backend.c:331-341 | taking out any used cell leaves a well-formed doubly linked list |
| `CellPool.Pool.DetouchMemCell` | src/hardware_dep/shared/ctrl_plane/ctrl_plane_backend.c:331-349 | any used cell becomes the first unused one, and its predecessor pointer is null |
| `CellPool.PartitionCovers` | src/hardware_dep/shared/ctrl_plane/ctrl_plane_backend.c:307-349 | every cell is in exactly one of the two lists |
| `Channel.StepInv` | src/hardware_dep/shared/ctrl_plane/ctrl_plane_backend.c:70-155 | every step of any thread keeps lists, queues and cell contents consistent, if the pool is no larger than a queue |
| `Channel.RunInv` | src/hardware_dep/shared/ctrl_plane/ctrl_plane_backend.c:70-155 | so does every run |
| `Channel.NothingIsLost` | src/hardware_dep/shared/ctrl_plane/fifo.c:36-66 | in every reachable state a cell about to be added finds room, and the messages taken are the first of those added, in order |
| `Channel.DiscardsExactly` | src/hardware_dep/shared/ctrl_plane/ctrl_plane_backend.c:82-155 | for the input queue and for the output queue: the discarding branch is reachable if and only if the pool has more cells than the queue has slots |
| `Channel.TakenIsWritten` | src/hardware_dep/shared/ctrl_plane/ctrl_plane_backend.c:90-155 | over every run the messages added to a queue are the last ones written into their cells after those were touched, and those taken are the first of these, in order |
| `Channel.OneMessage` | src/hardware_dep/shared/ctrl_plane/ctrl_plane_backend.c:90-110 | a message read into a cell is the one that the processing thread takes, not what the cell held before |
| `Channel.ThousandCells` | src/hardware_indep/controlplane.c.py:358 | with the 1000 cells of the switch no queue of 1024 slots is ever full when a cell is added |
| `Channel.RunKept` | src/hardware_dep/shared/ctrl_plane/ctrl_plane_backend.c:70-155 | after every run each cell is where its state says: unused ones in the list, queued ones in their queue |
| `Channel.Settles` | src/hardware_dep/shared/ctrl_plane/ctrl_plane_backend.c:110-155 | from every reachable state the threads can work off what there is: both queues empty, everything added taken, every cell in use back in the list |
| `Channel.GetsThrough` | src/hardware_dep/shared/ctrl_plane/ctrl_plane_backend.c:70-155 | while there is an unused cell a message can be sent in either direction: some run takes it, behind those added before |
| `Messages.MatchOfParts` | src/hardware_dep/shared/ctrl_plane/messages.h:171-211 | a match is determined by kind, name, number and body as laid out in the structures |
| `Codec.MatchAddedParts` | src/hardware_dep/shared/ctrl_plane/messages.c:56-65 | adding a match grows the length by its size, counts it, sets its kind, and leaves the earlier message alone |
| `Codec.MatchSentParts` | src/hardware_dep/shared/ctrl_plane/messages.c:153-214 | the same for a match that is added, filled in and converted; the structure lies where the message ended |
| `Codec.MatchesSentParts` | src/hardware_dep/shared/ctrl_plane/messages.c:153-214 | a list of matches can be added if and only if all fit, and then lies end to end from the old length on |
| `Codec.ParamsSentParts` | src/hardware_dep/shared/ctrl_plane/messages.c:231-240 | the same for action parameters, counted in their action |
| `Codec.MatchConverted` | src/hardware_dep/shared/ctrl_plane/messages.c:92-120 | conversion touches the number of one match only, and is its own inverse |
| `Builder.CreateP4AddTableEntry` | src/hardware_dep/shared/ctrl_plane/messages.c:41-50 | a buffer that the fixed part would just fill is refused; otherwise the fields are initialised |
| `Builder.AddP4FieldMatch` | src/hardware_dep/shared/ctrl_plane/messages.c:56-65 | where the new match is, or that it does not fit |
| `Builder.AddP4Action` | src/hardware_dep/shared/ctrl_plane/messages.c:216-225 | where the action is, or that it does not fit |
| `Builder.AddP4ActionParameter` | src/hardware_dep/shared/ctrl_plane/messages.c:231-240 | where the parameter is, or that it does not fit; the count of the action grows |
| `Builder.SendTableEntry` | src/hardware_dep/shared/ctrl_plane/messages.c:41-65 | building step by step in place gives the specified message or fails with it |
| `Builder.SendDefaultAction` | src/hardware_dep/shared/ctrl_plane/messages.c:246-257 | the same for default actions |
| `Handlers.ConvertMatches` | src/hardware_dep/shared/ctrl_plane/handlers.c:116-123 | the loop visits and converts the parts as the recursive specification says |
| `Handlers.ConvertParams` | src/hardware_dep/shared/ctrl_plane/handlers.c:137-141 | the loop over parameters, likewise |
| `Handlers.AnswersByType` | src/hardware_dep/shared/ctrl_plane/handlers.c:9-142 | the answer to every buffer, by its bytes: -1 for fewer than 8 or a claim above the length, 5 with the id in bytes 4 to 7, 103 and 104 with the addresses of their parts, -1 and -2 for more than ten of them, -100 for every other type |
| `Handlers.WalkIsChain` | src/hardware_dep/shared/ctrl_plane/handlers.c:116-123 | the walk follows the match structures as they were received: each begins where the one before it ends, by the kinds in the buffer, and converting one does not touch those behind it |
| `Handlers.ChainIsWalked` | src/hardware_dep/shared/ctrl_plane/handlers.c:116-123 | conversely, where such structures lie in the buffer the walk finds them |
| `Handlers.ParamWalk` | src/hardware_dep/shared/ctrl_plane/handlers.c:137-141 | the walk over parameters stays in the buffer if and only if 260 bytes for each do, and finds them 260 bytes apart |
| `Handlers.UnknownKindStays` | src/hardware_dep/shared/ctrl_plane/messages.c:115-117 | the walk does not get past a match of an unknown kind and hands on its address for every match that is left |
| `Handlers.HandleP4AddTableEntry` | src/hardware_dep/shared/ctrl_plane/handlers.c:95-142 | result, error codes and converted buffer as specified |
| `Handlers.HandleP4SetDefaultAction` | src/hardware_dep/shared/ctrl_plane/handlers.c:66-93 | result, error code and converted buffer as specified |
| `Handlers.HandleP4Msg` | src/hardware_dep/shared/ctrl_plane/handlers.c:9-57 | result and converted buffer as specified, and the answer by the bytes on the wire: -1 for bad lengths, the messages of types 5, 103 and 104 with id and addresses, -100 for other types |
| `RoundTrip.EntrySentParts` | src/hardware_dep/shared/ctrl_plane/messages.c:41-65 | an entry can be built if and only if its size is at most the maximum, and then the buffer holds it in network order |
| `RoundTrip.MatchesReceivedParts` | src/hardware_dep/shared/ctrl_plane/handlers.c:116-123 | the walk goes through exactly the addresses the sender's running length went through, and converts each part once |
| `RoundTrip.EntryRoundTrip` | src/hardware_dep/shared/ctrl_plane/handlers.c:9-142 | building, converting and handling recovers table name, matches with kinds and lengths, action name and parameters in order; more than ten matches are answered with -1, more than ten parameters with -2 |
| `RoundTrip.DefaultSentParts` | src/hardware_dep/shared/ctrl_plane/messages.c:246-257 | a default action can be built if and only if it fits and the buffer is larger than its fixed part |
| `RoundTrip.ExactBufferRefused` | src/hardware_dep/shared/ctrl_plane/messages.c:246-257 | a default action without parameters, 268 bytes long, is refused by a buffer of 268 bytes |
| `RoundTrip.DefaultRoundTrip` | src/hardware_dep/shared/ctrl_plane/handlers.c:66-93 | the round trip for default actions |
| `OnTheWire.EntryOnTheWire` | src/hardware_dep/shared/ctrl_plane/messages.h:148-219 | an entry whose names, values and numbers fit their C types is built if and only if the buffer has its length, and then each byte is where the structures have it: offsets, sizes, kinds and network order written out |
| `OnTheWire.DefaultOnTheWire` | src/hardware_dep/shared/ctrl_plane/messages.h:148-169 | the same for default actions |
| `OnTheWire.DigestOnTheWire` | src/hardware_dep/shared/ctrl_plane/messages.h:221-236 | the same for digests: fields of 164 bytes from byte 140 on |
| `OnTheWire.FieldFitsExactly` | src/hardware_dep/shared/ctrl_plane/messages.c:278-287 | a digest field can hold up to 32 bytes and as many bits as these have, or up to seven less |
| `Digests.DigestRoundTrip` | src/hardware_dep/shared/ctrl_plane/ctrl_plane_backend.c:351-415 | header length, count and list name match, and reading field by field gives the values and bit lengths that were added |
| `Digests.FieldSentParts` | src/hardware_dep/shared/ctrl_plane/messages.c:278-287 | adding a digest field leaves the earlier message alone |
| `Digests.AddDigestField` | src/hardware_dep/shared/ctrl_plane/ctrl_plane_backend.c:397-415 | the field is written and converted if its value has at most 32 bytes; a longer one leaves an empty field behind; no room is not handled |
| `Digests.CreateDigest` | src/hardware_dep/shared/ctrl_plane/messages.c:263-272 | the initial digest, or that it does not fit |
| `Framing.ReadFix` | src/hardware_dep/shared/ctrl_plane/sock_helpers.c:10-22 | with any short reads: all bytes and no more, or the end, or a failure; a count that is not positive looks like the end |
| `Framing.WriteFix` | src/hardware_dep/shared/ctrl_plane/sock_helpers.c:24-36 | with any short writes: all bytes in order, or a failure |
| `Framing.ReadP4Msg` | src/hardware_dep/shared/ctrl_plane/sock_helpers.c:38-58 | exactly one message leaves the stream, or the specified refusal; by the bytes: the claim in bytes 2 and 3 is taken, 0 below 8 or at the end of the stream, -100 above the length |
| `Framing.WriteP4Msg` | src/hardware_dep/shared/ctrl_plane/sock_helpers.c:60-72 | exactly the bytes the header claims are sent, or nothing |
| `Framing.SendAll` | src/hardware_dep/shared/ctrl_plane/sock_helpers.c:60-72 | on a working connection all messages are sent, one after the other |
| `Framing.ReceiveAll` | src/hardware_dep/shared/ctrl_plane/sock_helpers.c:38-58 | reading until there is no message returns exactly the messages in the stream, or on a broken connection the first of them |
| `Framing.Exchange` | src/hardware_dep/shared/ctrl_plane/sock_helpers.c:38-72 | what is received is the list of messages that was sent, for every pattern of short writes and short reads |
| `Framing.ShortClaimEndsStream` | src/hardware_dep/shared/ctrl_plane/sock_helpers.c:46-57 | a message that claims three bytes loses its header and ends the stream for its reader, whatever follows |
| `Framing.FramesOfConcat` | src/hardware_dep/shared/ctrl_plane/sock_helpers.c:38-72 | reading back any sequence of written messages returns them one by one |
| `Framing.FramedByBytes` | src/hardware_dep/shared/ctrl_plane/sock_helpers.c:38-72 | a message is well framed exactly if it has 8 bytes or more and claims its own length in bytes 2 and 3 |
| `Framing.FramingUnambiguous` | src/hardware_dep/shared/ctrl_plane/sock_helpers.c:38-72 | two sequences of messages with the same bytes are the same |
| `Transmit.Port.SendBurst` | src/hardware_dep/dpdk/dpdk_nicon.c:31-41 | the first k of the burst are sent and the others freed, in order, k being what the driver took of this burst, which is recorded |
| `Transmit.Port.SendPacket` | src/hardware_dep/dpdk/dpdk_nicon.c:121-133 | the buffer is pending, or the full burst of 32 is offered to the driver and sent or freed as it was taken; less than a burst is pending between calls |
| `Transmit.Port.Drain` | src/hardware_dep/dpdk/dpdk_nicon.c:43-61 | everything pending is offered to the driver in one burst, and sent or freed as it was taken |
| `Transmit.Port.Run` | src/hardware_dep/dpdk/dpdk_nicon.c:43-133 | after any sequence of packets and drains every packet is among those sent, those freed or those pending, in exactly one way, and those sent left in the order they came; a driver that takes all it is offered leaves none freed; without a drain every 32nd packet completes a burst |
| `Transmit.Port.Accounted` | src/hardware_dep/dpdk/dpdk_nicon.c:31-133 | at any time between calls each buffer given to the port is sent, freed or pending, counted once |
| `Transmit.Port.NoneFreed` | src/hardware_dep/dpdk/dpdk_nicon.c:31-41 | if the driver took all it was offered, every buffer given to the port was sent or is pending |
| `Transmit.BurstSplits` | src/hardware_dep/dpdk/dpdk_nicon.c:36-41 | a burst of which k buffers were taken adds its first k to those sent and the others to those freed |
| `Transmit.Port.InOrder` | src/hardware_dep/dpdk/dpdk_nicon.c:121-133 | the sent buffers are at increasing positions among those enqueued |
| `Transmit.Conserved` | src/hardware_dep/dpdk/dpdk_nicon.c:31-41 | each buffer that is no longer pending was either sent or freed, once |
| `Transmit.SentInOrder` | src/hardware_dep/dpdk/dpdk_nicon.c:31-41 | the sent buffers are at increasing positions among those no longer pending |

## Left out

- ExprCorrect.FormatCorrect: asks of every comparison and shift count in the tree that it agrees, also in arms that are not taken; that is exact for each of them, but a wrong comparison whose result does not matter is not looked at further.
- ExprCorrect.CopyStored: one arbitrary number stands for what an uninitialised variable holds, and byte order is little-endian; variables of the block and parameters of the action have different numbers.
- Field assignments end with the value handed over to the accessor, which is described in `Fields`; the check that the header is valid is not modelled.
- Slices, select masks, signed operators, division, remainder and values over 32 bits: unfinished or rejected in the generator.
- The text of C expressions: trees are compared, not strings; parentheses and operator precedence are not modelled.
- Signed overflow, undefined in C, is modelled as wrap-around; a field read is a value within its width.
- The operator tables are taken as the obvious map from P4 to C operators; they are not part of this model.
- Replicas.SleepLongEnough: does not model time; the sleep of 200 microseconds becomes the condition that it lasts until every packet in progress has ended.
- Replicas.Socket.ChangeTable: models one socket; the loop over sockets repeats it on disjoint state.
- A promote concurrent with another, and table bodies (exact, longest prefix, ternary): contents are the sequence of updates.
- Deparse.CopyBlocksExact: models `memcpy` as a copy that allows overlap, as the code relies on it.
- Packet.PacketDescriptor.DeparsePacket: covers one call per packet; a second call on the same packet starts from pointers that no longer match.
- Packet.PacketDescriptor.constructor: assumes that a program that skips a header also has a local one; the front end that marks headers as skipped and local is not part of this model. The flag is raised for local headers, as in the code.
- Packet.PacketDescriptor.ParserExtract: covers headers of fixed width in whole bytes; variable-width headers, metadata and preparsed fields are not modelled.
- Packet.PacketDescriptor.Emit: the emit list is unbounded; its array has eight entries more than there are headers.
- Packet.PacketDescriptor.RunParser: components other than extractions (assignments, lookahead, advance) are not modelled.
- Fields.Modify32ImplNetOrder: covers packet header fields within 32 bits from their first byte, with four accessible bytes there, on a little-endian host; metadata and wider fields are not modelled.
- Channel.NothingIsLost: locks and condition variables are not modelled; each critical section is one step.
- CellPool.Pool.constructor: allocation failures are not modelled.
- Builder.AddP4FieldMatch: is one method for the five functions of the five kinds; messages start at the beginning of the buffer.
- Handlers.HandleP4AddTableEntry: a walk that would leave the buffer is an outcome of its own; what the program does then is not modelled. The uninitialised message given to the callback for unknown types is not modelled either.
- Framing.ReadFix: blocking is not modelled; the end of the stream stands for a closed connection.
- Transmit.Port.Drain: the clock that decides when to drain, and the loop over ports, are left out.
- Crypto devices, multicast, broadcast, statistics, debug output, command line, the compiler driver: foreign calls or text plumbing.
