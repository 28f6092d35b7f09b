# A verified model of libdft-dr

libdft-dr is a per-byte dynamic taint engine. Conceptually every byte of the
register file and of memory holds a set of input offsets. The engine stores a
32-bit id per byte instead: ids index a table of interned sets, unions are
memoised under pairs of ids, and shadow memory is a lazily allocated three-level
directory. Handlers update ids in place, one instruction or call at a time.

This project models that engine imperatively, handler by handler, next to a
reference engine that keeps a plain set per byte, and proves

* that every handler, every function summary and every source hook does to the
  sets what the reference engine does, and hence that every run does
  (`Engines.Engine.RunAll`);
* what each step and each decoded instruction does to each cell, stated on cells
  and operands alone (`StepLaws`, `InstrLaws`);
* laws of whole runs: labels propagate independently of each other, one symbolic
  run summarises the steps for every starting state, runs distribute over unions
  of states, no label appears that was not painted, the spare register row stays
  clear (`RunLaws`, all from one naturality theorem in `Dataflow`);
* that the interned table and the directory keep their invariants, and exactly
  where the 32-bit id space stops the table from being faithful;
* that descriptor tracking never loses a descriptor of the source file, exactly
  which calls keep it precise (with a false offset reachable after any other),
  and that painting is offset-exact against a model of the kernel's descriptor
  table and file cursors;
* that the must-not-taint lookup, with its cache, searches and lazy sort, answers
  what cache-free searches answer over every history of loads, unloads,
  registrations and queries; exactly when those searches equal a scan (a file cut
  short leaves unsorted words behind); and exactly which sets of ranges its
  predecessor probe handles;
* which comparison records reach the output file, and that the two record writers
  agree.

Everything about ids is stated while the table holds at most 2^32 sets (`Live`);
`TagTables.TagTable.Intern` says precisely what happens at that boundary.

## Layout

| file | contents |
|---|---|
| `TagText.dfy` | the text "{a,b,...}" of a set, and its comma count |
| `TagTable.dfy` | the interned-set table |
| `ShadowDir.dfy` | address geometry and the three-level directory |
| `Cells.dfy`, `Ops.dfy` | byte vectors, the step alphabet and the reference engine |
| `LoopSteps.dfy`, `Engine.dfy` | the engine with its handlers, and the lemmas its loops use |
| `Registers.dfy` | register spans and the handler calls the inserters emit |
| `StepLaws.dfy`, `InstrLaws.dfy` | what each step and each instruction does, cell by cell |
| `Dataflow.dfy`, `RunLaws.dfy`, `WholeRuns.dfy` | naturality and the laws of runs |
| `Algebra.dfy` | overlapping copies, byte order, exchange, call summaries |
| `Descriptors.dfy`, `Tracer.dfy` | descriptor tracking and source painting |
| `Ordering.dfy`, `Mnt.dfy` | the must-not-taint consumer |
| `Sinks.dfy`, `Queries.dfy` | comparison records and tag queries |
| `Options.dfy` | the option type |

## Where code and documentation differ

The model follows the code.

* Shifts unite all destination bytes (`libdft_core_dr.cpp:1581-1606`), although
  `DESIGN.md` calls them no-ops; ADC is not routed, although `DESIGN.md` lists it.
* A 32-bit register write touches four shadow bytes only.
* The "conservative" default summary has no length, so it reads nothing and clears
  RAX (`Algebra.ConservativeDefaultClears`).
* A directory read above 0x7fffffffffff dereferences a null pointer, so handlers
  that read memory require their addresses below it; writes above it are dropped.
* A module none of whose `.mnt.bin` files loads is logged as not skippable, yet the
  words of files cut short stay and are searched (`Mnt.UnloadedImageAnswers`).
* The table exists only after `tagmap_alloc`; the constructors stand for it.
* `handle_prop_ptr2ptr` indexes the argument array with the summary's first
  source unchecked (`sdft_hook_dr.cpp:151`), so a PROP_PTR2PTR summary is required
  to name an argument from 0 to 5.

## Model

| member | source | states |
|---|---|---|
| `TagText.NumeralOfDecimal` | tagmap.cpp:37-46 | decimal rendering of an offset can be read back |
| `TagText.DecimalDigits` | tagmap.cpp:37-46 | the k-th digit from the right is that of 10^k, and there are no leading zeros |
| `TagText.AscendingIsSorted` | tagmap.cpp:116-129 | iterating a set yields each element once, strictly ascending |
| `TagText.SplitOfJoin` | tagmap.cpp:37-46 | splitting the joined text at commas gives the elements' decimals |
| `TagText.SprintText` | tagmap.cpp:37-46 | the text is braces around the joined decimals of any ascending listing of the set |
| `TagText.JoinText` | tagmap.cpp:37-46 | joining puts the first decimal before the rest, with a comma between |
| `TagText.UnprintOfSprint` | tagmap.cpp:37-46 | the text of a set determines the set (round trip) |
| `TagText.SprintInjective` | tagmap.cpp:48-59 | keying the intern map by text is keying it by set |
| `TagText.CommaTokens` | libdft_core_dr.cpp:133-141 | the loop counts the tokens a split on ',' would give |
| `TagText.TokensOfSprint` | libdft_core_dr.cpp:130-141 | the token count of a printed set is max(1, size) |
| `TagTables.UnpackOfPack` | tagmap.cpp:88-88 | the packed 64-bit memo key is injective on pairs of ids |
| `TagTables.ShiftedKey` | tagmap.cpp:88-88 | both 32-bit halves can be read back from the shifted and or-ed 64-bit key |
| `TagTables.IdsAreCanonical` | tagmap.cpp:48-59 | ids are equal iff their sets are; id 0 is exactly the empty set |
| `TagTables.InternLookup` | tagmap.cpp:48-59 | a set's text is a key iff the set is in the table, and leads to it |
| `TagTables.AppendConsistent` | tagmap.cpp:48-59 | appending a new set keeps the three containers consistent |
| `TagTables.MemoInsert` | tagmap.cpp:92-99 | memoising a union under both orders keeps every entry a union with its mirror |
| `TagTables.MemoHit` | tagmap.cpp:88-91 | a memo hit returns the id of the union |
| `TagTables.TagTable.constructor` | tagmap.cpp:132-143 | a fresh table is consistent and id 0 is the empty set |
| `TagTables.TagTable.Intern` | tagmap.cpp:48-59 | the table only grows by the new set; the id denotes the set iff it was present or fewer than 2^32 sets exist |
| `TagTables.TagTable.SetLabel` | tagmap.cpp:63-69 | the id denotes the singleton of the offset cut to 32 bits |
| `TagTables.TagTable.Combine` | tagmap.cpp:81-100 | the id denotes the union; existing ids keep their sets; the invariant is kept |
| `TagTables.TagTable.NumberOfOnes` | tagmap.cpp:71-77 | the size of the id's set |
| `TagTables.TagTable.SprintTag` | tagmap.cpp:102-108 | the text of the id's set |
| `TagTables.TagTable.Walk` | tagmap.cpp:116-129 | visits a prefix of the ascending elements with the visitor's state carried along, all of them iff no visit refuses |
| `TagTables.CarriedInOrder` | tagmap.cpp:116-129 | the visitor's state is handed from one visit to the next, in order |
| `ShadowDirectory.SplitIsBijective` | tagmap.h:33-45 | splitting (as division and remainder by powers of two) is a bijection from 47-bit addresses onto in-bounds index triples |
| `ShadowDirectory.ShiftsAndMasks` | tagmap.h:33-45 | on 64-bit words the shifts and masks give in-bounds indices, reassemble to the address, and recover any in-bounds triple |
| `ShadowDirectory.ShadowDir.constructor` | tagmap.h:80-88 | a fresh directory is the all-cleared map |
| `ShadowDirectory.ShadowDir.SetB` | tagmap.h:94-120 | an in-range write changes exactly its own cell, any other write nothing |
| `ShadowDirectory.ShadowDir.GetB` | tagmap.h:122-139 | a read returns the flat map's value, through unallocated levels too |
| `ShadowDirectory.ShadowDir.ClearRange` | tagmap.cpp:164-170 | clears exactly [addr, addr + n), and nothing when the bound wraps |
| `ShadowDirectory.ShadowDir.Replay` | tagmap.h:94-139 | after any write history every cell holds the last in-range write to it |
| `Engines.Engine.R2RXfer` | libdft_core_dr.cpp:259-269 | register copy loop equals the copied vector, overlapping spans included |
| `Engines.Engine.RClr` | libdft_core_dr.cpp:271-280 | clears exactly the span |
| `Engines.Engine.MovM2R` | libdft_core_dr.cpp:282-291 | the span receives the memory bytes' sets |
| `Engines.Engine.MovR2M` | libdft_core_dr.cpp:293-303 | memory receives the span's sets, out-of-range bytes dropped |
| `Engines.Engine.MovClrMem` | libdft_core_dr.cpp:305-310 | clears the memory range as `file_tagmap_clrn` does |
| `Engines.Engine.M2MXfer` | libdft_core_dr.cpp:312-318 | forward memory copy, periodic on forward overlap |
| `Engines.Engine.TernaryCombine` | libdft_core_dr.cpp:320-340 | the operand's sets join RDX:RAX, or AL and AH for one byte |
| `Engines.Engine.TernaryR2R` | libdft_core_dr.cpp:342-352 | the same with a register operand, captured before any write |
| `Engines.Engine.TernaryM2R` | libdft_core_dr.cpp:354-364 | the same with a memory operand |
| `Engines.Engine.XchgR2R` | libdft_core_dr.cpp:366-378 | the two spans' sets are swapped |
| `Engines.Engine.XchgM2R` | libdft_core_dr.cpp:380-391 | register and memory sets are swapped |
| `Engines.Engine.CmovR2R` | libdft_core_dr.cpp:433-444 | copies if taken, otherwise changes nothing |
| `Engines.Engine.CmovM2R` | libdft_core_dr.cpp:446-457 | loads if taken, otherwise changes nothing |
| `Engines.Engine.BinaryR2R` | libdft_core_dr.cpp:464-474 | byte-wise union into the destination span |
| `Engines.Engine.BinaryM2R` | libdft_core_dr.cpp:476-488 | byte-wise union of memory into a span |
| `Engines.Engine.BinaryR2M` | libdft_core_dr.cpp:490-502 | byte-wise union of a span into memory |
| `Engines.Engine.MovzxR2R` | libdft_core_dr.cpp:509-519 | source bytes, then cleared extension |
| `Engines.Engine.MovzxM2R` | libdft_core_dr.cpp:521-531 | the same from memory |
| `Engines.Engine.MovsxR2R` | libdft_core_dr.cpp:538-549 | source bytes, then the original top source byte's set, also when the rows coincide |
| `Engines.Engine.MovsxM2R` | libdft_core_dr.cpp:551-562 | the same from memory |
| `Engines.Engine.LeaProp` | libdft_core_dr.cpp:592-596 | byte-wise union of base and index, also when the destination is one of them |
| `Engines.Engine.ShiftR` | libdft_core_dr.cpp:1581-1592 | every byte receives the union of the span |
| `Engines.Engine.ShiftM` | libdft_core_dr.cpp:1594-1606 | the same in memory |
| `Engines.Engine.ShldR2R` | libdft_core_dr.cpp:1608-1622 | every byte receives the union of both spans |
| `Engines.Engine.BswapReg` | libdft_core_dr.cpp:1702-1714 | the in-place swap loop reverses the span |
| `Engines.Engine.MovbeM2R` | libdft_core_dr.cpp:1716-1724 | reversed load |
| `Engines.Engine.MovbeR2M` | libdft_core_dr.cpp:1726-1734 | reversed store |
| `Engines.Engine.CmpxchgMem` | libdft_core_dr.cpp:1809-1825 | memory and accumulator receive the union of all three operands |
| `Engines.Engine.CmpxchgReg` | libdft_core_dr.cpp:1827-1843 | destination and accumulator receive the union of all three operands |
| `Engines.Engine.XaddR2R` | libdft_core_dr.cpp:1847-1860 | both operands receive their union |
| `Engines.Engine.XaddM2R` | libdft_core_dr.cpp:1862-1875 | memory and register receive their union |
| `Engines.Engine.ClobberCallerSaved` | sdft_hook_dr.cpp:118-129 | clears exactly the caller-saved rows |
| `Engines.Engine.RaxSetAll` | sdft_hook_dr.cpp:131-135 | sets the low 8 bytes of RAX |
| `Engines.Engine.SafeStrlen` | sdft_hook_dr.cpp:66-76 | the number of leading readable non-NUL bytes, capped |
| `Engines.Engine.SafeWcslenBytes` | sdft_hook_dr.cpp:78-89 | four times the number of leading readable non-NUL wide characters, capped |
| `Engines.Engine.ResolveLen` | sdft_hook_dr.cpp:91-110 | the resolved and clamped length |
| `Engines.Engine.HandlePropPtr2Ptr` | sdft_hook_dr.cpp:143-173 | equals copy, clobber, RAX from the first destination byte |
| `Engines.Engine.HandlePropPtr2Val` | sdft_hook_dr.cpp:175-197 | RAX receives the union over the pointed-to buffers of the pre-state |
| `Engines.Engine.HandlePropScalar` | sdft_hook_dr.cpp:199-212 | RAX receives the union over the named argument registers of the pre-state |
| `Engines.Engine.Dispatch` | sdft_hook_dr.cpp:226-248 | each shape performs its summary |
| `Engines.Engine.PaintBytes` | syscall_desc_dr.cpp:790-796 | buffer byte i receives the singleton of offset + i cut to 32 bits |
| `Engines.Engine.ClearBytes` | syscall_desc_dr.cpp:798-803 | clears exactly the buffer's cells |
| `Engines.Engine.Exec` | libdft_core_dr.cpp:260-597 | every step refines the reference engine's step |
| `Engines.Engine.RunAll` | libdft_core_dr.cpp:260-597 | every run refines the reference run, and ids never change meaning |
| `StepLaws.PlaceBytes` | libdft_core_dr.cpp:79-97 | the bytes of an operand: consecutive row bytes, or addresses modulo 2^64 that have a cell |
| `StepLaws.XferLaw` | libdft_core_dr.cpp:259-318 | a copy on cells: source byte i, or byte i mod the gap on forward overlap; other cells unchanged |
| `StepLaws.CmovLaw` | libdft_core_dr.cpp:433-457 | the copy if taken, nothing otherwise |
| `StepLaws.ClearLaw` | libdft_core_dr.cpp:271-280 | exactly the operand's cells become empty |
| `StepLaws.ClearRangeLaw` | tagmap.cpp:164-170 | exactly [addr, addr + n) becomes empty, nothing when the bound wraps |
| `StepLaws.MulLaw` | libdft_core_dr.cpp:320-364 | operand bytes join rows 8 and 10, or bytes 0 and 1 of row 10 for one byte; the rest unchanged |
| `StepLaws.BinLaw` | libdft_core_dr.cpp:464-502 | destination byte i becomes its union with source byte i; the rest unchanged |
| `StepLaws.XchgLaw` | libdft_core_dr.cpp:366-391 | bytes are exchanged; the rest unchanged |
| `StepLaws.ExtendLaw` | libdft_core_dr.cpp:509-562 | source bytes, then empty sets or the top source byte's set; the rest unchanged |
| `StepLaws.LeaLaw` | libdft_core_dr.cpp:592-596 | destination byte i is the union of base and index byte i; the rest unchanged |
| `StepLaws.ShiftLaw` | libdft_core_dr.cpp:1581-1606 | an element is in a byte iff some byte of the operand held it |
| `StepLaws.ShldLaw` | libdft_core_dr.cpp:1608-1622 | an element is in a byte iff some byte of either operand held it |
| `StepLaws.BswapLaw` | libdft_core_dr.cpp:1702-1714 | byte i becomes byte n - 1 - i |
| `StepLaws.MovbeLaw` | libdft_core_dr.cpp:1716-1734 | destination byte i becomes source byte n - 1 - i |
| `StepLaws.CmpxchgLaw` | libdft_core_dr.cpp:1809-1843 | destination and accumulator byte i become the union of the three operands' byte i |
| `StepLaws.XaddLaw` | libdft_core_dr.cpp:1847-1875 | both operands' byte i become their union |
| `StepLaws.PaintLaw` | syscall_desc_dr.cpp:790-796 | buffer byte i receives the label offset + i modulo 2^32; the rest unchanged |
| `StepLaws.RunInOrder` | libdft_core_dr.cpp:2046-2205 | running a concatenation is running its parts in order |
| `WholeRuns.RunFresh` | tagmap.cpp:48-100 | from a fresh engine: refinement, one-bit decision per label, only painted labels, spare row clear |
| `WholeRuns.CellIdsAreCanonical` | tagmap.h:47-52 | any two cells, registers or memory, hold the same id iff the same labels; an id is non-zero iff its cell is tainted |
| `WholeRuns.RunProgram` | libdft_core_dr.cpp:822-2043 | any program of decoded instructions runs and refines the reference run |
| `Registers.SpansAligned` | libdft_core_dr.cpp:79-97 | two register spans cut to one width are the same bytes or disjoint, in real rows |
| `Registers.GprRows` | libdft_core_dr.cpp:79-97 | which rows and widths are registers, and which have a second byte |
| `Registers.LoweredIsWellFormed` | libdft_core_dr.cpp:822-2043 | every handler call an inserter emits meets its handler's demands |
| `InstrLaws.MovLaw` | libdft_core_dr.cpp:822-964 | the destination's bytes up to the common width receive the source's; memory to memory repeats on forward overlap |
| `InstrLaws.MovImmLaw` | libdft_core_dr.cpp:838-847 | the destination is cleared, nothing else |
| `InstrLaws.CondMovLaw` | libdft_core_dr.cpp:1444-1484 | a move if taken and not onto itself, nothing otherwise |
| `InstrLaws.PushLaw` | libdft_core_dr.cpp:1135-1165 | a move or a clear of the slot; nothing for the stack pointer |
| `InstrLaws.PopLaw` | libdft_core_dr.cpp:1168-1192 | a move from the slot; nothing for the stack pointer |
| `InstrLaws.StackPointerIs` | libdft_core_dr.cpp:1112-1116 | row 6 at any width but one byte |
| `InstrLaws.LeaveLaw` | libdft_core_dr.cpp:1232-1243 | RSP receives RBP and RBP the slot; the rest unchanged |
| `InstrLaws.BinaryLaw` | libdft_core_dr.cpp:1007-1073 | byte-wise union, cleared exactly for the zeroing idiom, nothing for two memory operands |
| `InstrLaws.BinaryImmLaw` | libdft_core_dr.cpp:1026-1027 | an immediate operand changes nothing |
| `InstrLaws.WideningLaw` | libdft_core_dr.cpp:1076-1110 | source bytes then the extension, in the destination's row |
| `InstrLaws.LoadAddressLaw` | libdft_core_dr.cpp:1402-1440 | union of base and index bytes, a missing one being row 43 |
| `InstrLaws.MultiplyingLaw` | libdft_core_dr.cpp:1300-1340 | the explicit operand joins RDX and RAX; one in RAX or RDX is not looked at |
| `InstrLaws.SignExtendAccLaw` | libdft_core_dr.cpp:1274-1284 | the accumulator's lower half is copied to its upper half |
| `InstrLaws.SignIntoRdxLaw` | libdft_core_dr.cpp:1287-1297 | RDX receives the accumulator's bytes |
| `InstrLaws.ShiftingLaw` | libdft_core_dr.cpp:1624-1650 | every byte receives the operand's union; also SHLD without a source register |
| `InstrLaws.FunnellingLaw` | libdft_core_dr.cpp:1652-1700 | every byte receives the union of both registers |
| `InstrLaws.ByteSwapLaw` | libdft_core_dr.cpp:1736-1753 | the register's bytes are reversed |
| `InstrLaws.MovBigEndianLaw` | libdft_core_dr.cpp:1755-1800 | reversed move between a register and memory, nothing otherwise |
| `InstrLaws.ExchangingLaw` | libdft_core_dr.cpp:1363-1399 | the operands' bytes are exchanged |
| `InstrLaws.ExchangeAddLaw` | libdft_core_dr.cpp:1938-1969 | both operands receive their union |
| `InstrLaws.CompareExchangeLaw` | libdft_core_dr.cpp:1882-1935 | destination and accumulator receive the three-way union; nothing when the source is in RAX or is the destination |
| `WholeRuns.ProgramInOrder` | libdft_core_dr.cpp:2046-2205 | a program's instructions take effect in order |
| `Dataflow.ApplyNatural` | libdft_core_dr.cpp:260-597 | every step commutes with substituting sets for elements |
| `Dataflow.RunNatural` | libdft_core_dr.cpp:260-597 | every run does |
| `RunLaws.LabelIndependence` | libdft_core_dr.cpp:260-597 | a label reaches a cell iff a one-bit engine painting only that label marks it |
| `RunLaws.Provenance` | libdft_core_dr.cpp:260-597 | a final cell is exactly what its symbolic origins contribute, for every starting state |
| `RunLaws.RunDistributes` | libdft_core_dr.cpp:260-597 | runs commute with pointwise union of states |
| `RunLaws.ClearStaysClear` | libdft_core_dr.cpp:260-597 | the all-clear state is closed under every step that paints nothing, for every kind of mark |
| `RunLaws.NoFabricatedTaint` | syscall_desc_dr.cpp:766-804 | every final label was in the first state or was painted by a step |
| `RunLaws.SpareRowStaysClear` | libdft_core_dr.cpp:564-597 | row GRP_NUM stays clear through every run |
| `RunLaws.LeaWithoutBase` | libdft_core_dr.cpp:1402-1414 | LEA with a missing base or index copies exactly the other register |
| `Algebra.ForwardCopy` | libdft_core_dr.cpp:313-318 | destination byte i gets source byte i, or source byte i mod (dst - src) on forward overlap |
| `Algebra.BswapInvolution` | libdft_core_dr.cpp:1702-1714 | reversing twice is the identity |
| `Algebra.MovbeIsMovThenBswap` | libdft_core_dr.cpp:1716-1724 | a MOVBE load is a load and a BSWAP |
| `Algebra.MovbeRoundTrip` | libdft_core_dr.cpp:1716-1734 | MOVBE load then store restores memory |
| `Algebra.XchgSwaps` | libdft_core_dr.cpp:366-391 | each operand ends with the other's bytes |
| `Algebra.XchgInvolution` | libdft_core_dr.cpp:366-391 | exchanging twice is the identity and once preserves the multiset of tags |
| `LoopSteps.WidenStep` | libdft_core_dr.cpp:538-549 | after the copy the sign byte still has its original set |
| `Algebra.CopyCallSpec` | sdft_hook_dr.cpp:158-172 | every cell after a copying call, with the caller-saved rows by number, in terms of the state before it |
| `Algebra.UnionCallSpec` | sdft_hook_dr.cpp:195-196 | RAX holds the union, the caller-saved rows by number are clear, the rest is unchanged |
| `Algebra.ClobberedRows` | sdft_hook_dr.cpp:118-129 | rows 3, 4 and 8 to 14 are cleared over 16 bytes; every other row and memory keep their sets |
| `Algebra.ArgumentRows` | sdft_hook_dr.cpp:43-53 | arguments 0 to 5 are rows 3, 4, 8, 9, 11, 12 |
| `Algebra.LengthOf` | sdft_hook_dr.cpp:91-110 | the length each kind of reference resolves to, with the clamp |
| `Algebra.StringLength` | sdft_hook_dr.cpp:66-76 | the strlen length is the first unreadable or NUL byte, or the cap |
| `Algebra.WideStringLength` | sdft_hook_dr.cpp:78-89 | the same in four-byte characters |
| `Algebra.CallLaw` | sdft_hook_dr.cpp:143-248 | a summarised call on cells, by shape: RAX, caller-saved rows, copied memory, everything else unchanged |
| `Algebra.PointedElement` | sdft_hook_dr.cpp:182-194 | an element is in the union iff some byte of some buffer a non-null source argument points to holds it |
| `Algebra.ScalarElement` | sdft_hook_dr.cpp:199-212 | an element is in the union iff some low byte of some named argument register holds it |
| `Algebra.ConservativeDefaultClears` | sdft_summaries_dr.cpp:239-242 | the conservative default reads nothing and clears RAX |
| `Descriptors.CoverageIsKept` | syscall_desc_dr.cpp:806-878 | no call loses a live descriptor of the source file |
| `Descriptors.ExactnessIsKept` | syscall_desc_dr.cpp:830-878 | from exact tracking a call keeps it exact iff it is faithful |
| `Descriptors.TrackingIsSound` | syscall_desc_dr.cpp:806-878 | over every run live source descriptors are tracked; exactly those over faithful runs |
| `Descriptors.ExactRuns` | syscall_desc_dr.cpp:806-878 | tracking is exact after every prefix of a run iff every call of the run is faithful |
| `Descriptors.UnfaithfulIsStale` | syscall_desc_dr.cpp:830-878 | a run with an unfaithful call has a tracked descriptor that does not refer to the source file at some moment |
| `Descriptors.StaleDescriptor` | syscall_desc_dr.cpp:842-851 | a run after which a tracked descriptor refers to another file |
| `Tracers.Tracer.PostOpen` | syscall_desc_dr.cpp:806-821 | the descriptor is added iff the looked-up name matches; the flag is set then |
| `Tracers.Tracer.PostDup` | syscall_desc_dr.cpp:853-862 | the result is added iff the source is tracked and the result is not -1 |
| `Tracers.Tracer.PostDup2` | syscall_desc_dr.cpp:830-851 | the target is added iff the source is tracked, whatever the result |
| `Tracers.Tracer.PostClose` | syscall_desc_dr.cpp:864-878 | the descriptor is removed unless the call failed |
| `Tracers.Tracer.PostRead` | syscall_desc_dr.cpp:766-804 | paints from cursor minus count or clears; counters grow by exactly the painted bytes |
| `Tracers.Tracer.PostPread64` | syscall_desc_dr.cpp:880-909 | the same from the given offset |
| `Tracers.Tracer.PostMunmap` | syscall_desc_dr.cpp:989-1001 | clears the unmapped bytes unless the call failed |
| `Tracers.RunTrace` | syscall_desc_dr.cpp:766-1001 | any trace of calls and steps refines the reference run; descriptors and byte counter follow the pure model |
| `Tracers.EventLaw` | syscall_desc_dr.cpp:766-1001 | each hook on cells: reads paint or clear n bytes cut to 32 bits, munmap clears, other calls change nothing |
| `Tracers.TraceInOrder` | syscall_desc_dr.cpp:766-1001 | a trace's events take effect in order |
| `Tracers.CountersFollow` | syscall_desc_dr.cpp:780-783 | one event and n bytes are counted exactly when n cells are painted |
| `Tracers.BytesArePainted` | syscall_desc_dr.cpp:766-909 | over a whole trace the byte counter is the number of cells painted |
| `Tracers.ReadIsOffsetExact` | syscall_desc_dr.cpp:785-796 | after a tracked read byte i carries exactly start + i, an untracked read clears, other cells keep their sets |
| `Tracers.LabelsAreReadOffsets` | syscall_desc_dr.cpp:766-804 | every label in any cell is the offset of a byte read from a tracked descriptor, and over faithful runs from one that refers to the source file |
| `Tracers.StaleDescriptorPaints` | syscall_desc_dr.cpp:766-804 | from any state with a stale descriptor a possible continuation puts another file's offset into a cell |
| `Tracers.FalseOffset` | syscall_desc_dr.cpp:842-851 | a concrete trace after which a cell carries the offset of another file's byte |
| `Ordering.SortIsSorting` | mnt_consumer_dr.cpp:173-175 | sorted and the same elements |
| `Ordering.LowerBound` | mnt_consumer_dr.cpp:253-254 | the partition point of a sorted sequence |
| `Ordering.BoundPartitions` | mnt_consumer_dr.cpp:253-254 | on a sorted sequence the halving ends at the partition point |
| `Ordering.BinarySearch` | mnt_consumer_dr.cpp:279-280 | the halving search's answer on any words, which is membership on sorted ones |
| `Ordering.SearchIsExact` | mnt_consumer_dr.cpp:279-280 | for distinct words the search answers membership for every probe iff the words are sorted |
| `Mnt.ProbeIsSound` | mnt_consumer_dr.cpp:246-258 | a hit means some registered range contains pc |
| `Mnt.ProbeIsExact` | mnt_consumer_dr.cpp:246-258 | the probe equals membership for every pc iff the ranges leave no hole |
| `Mnt.UnnestedHasNoHole` | mnt_consumer_dr.cpp:246-258 | without strict nesting there is no hole |
| `Mnt.NestedRangeIsMissed` | mnt_consumer_dr.cpp:246-258 | two ranges and a pc inside one of them that the probe misses |
| `Mnt.PredecessorAt` | mnt_consumer_dr.cpp:252-257 | the element before the partition point is the predecessor the probe means |
| `Mnt.LastAddressMissed` | mnt_consumer_dr.cpp:252-252 | the probe that wraps at the last address still answers membership |
| `Mnt.ReadTier` | mnt_consumer_dr.cpp:160-171 | reads a whole tier or reports truncation; keeps exactly the words it could read |
| `Mnt.LoadMntBin` | mnt_consumer_dr.cpp:118-182 | succeeds iff the body is complete, then sorted with exactly the residue and the selected tiers; a failed load keeps residue and kept words in order |
| `Mnt.KeptWords` | mnt_consumer_dr.cpp:160-171 | the words a file contributes, tier by tier, cut or complete |
| `Mnt.KeptElements` | mnt_consumer_dr.cpp:160-171 | x is contributed iff it is a word at a position in a selected tier |
| `Mnt.LoadedElements` | mnt_consumer_dr.cpp:213-229 | a module's words are exactly those offered by its candidates up to the first complete one |
| `Mnt.LoadedScan` | mnt_consumer_dr.cpp:213-229 | a pc in an image is found iff its offset is such a word |
| `Mnt.LoadOneComplete` | mnt_consumer_dr.cpp:160-177 | after one complete file, iff it is in the file's sound tier or the policy's extra tier |
| `Mnt.LoadCandidates` | mnt_consumer_dr.cpp:213-224 | the words any candidate list leaves, cut bodies included |
| `Mnt.LoadedWords` | mnt_consumer_dr.cpp:213-229 | the words are those kept up to the first complete candidate, and sorted iff some candidate is complete or the residue is |
| `Mnt.CutBody` | mnt_consumer_dr.cpp:159-182 | two cut bodies: one whose words the search misses, one whose words it finds although nothing was loaded |
| `Mnt.SortedAnswers` | mnt_consumer_dr.cpp:266-314 | in any state with sorted words the answer is that of the scan |
| `Mnt.SearchedIsScanned` | mnt_consumer_dr.cpp:266-314 | for disjoint images with distinct words inside them, searching equals scanning at every pc iff all words are sorted |
| `Mnt.RepeatedWordsMayBeFound` | mnt_consumer_dr.cpp:279-280 | with a repeated word the search can answer membership on unsorted words, so distinctness is needed |
| `Mnt.UnloadedImageAnswers` | mnt_consumer_dr.cpp:213-229 | an image with no successful load answers for its residue exactly as the search finds it |
| `Mnt.Consumer.constructor` | mnt_consumer_dr.cpp:38-48 | the empty world |
| `Mnt.Consumer.RtnRangeContains` | mnt_consumer_dr.cpp:246-258 | equals the order-free predecessor probe; sorting changes no range |
| `Mnt.Consumer.AddRtnRange` | mnt_consumer_dr.cpp:260-264 | adds a non-empty range |
| `Mnt.Consumer.OnModuleLoad` | mnt_consumer_dr.cpp:201-231 | adds the image with the words its candidates leave and drops the cache |
| `Mnt.Consumer.OnModuleUnload` | mnt_consumer_dr.cpp:233-244 | removes the first image at that start |
| `Mnt.Consumer.IsMnt` | mnt_consumer_dr.cpp:266-314 | cached lookup equals the cache-free per-image search plus the range test in every state, and the linear scan when the words are sorted |
| `Mnt.RunHistory` | mnt_consumer_dr.cpp:201-314 | every query of every history gets the search's answer, and the scan's when every load had a complete candidate or left sorted words |
| `Sinks.LegacyWriteCmp` | libdft_core_dr.cpp:146-162 | the bytes written, or nothing when a filtered field is noisy |
| `Sinks.LegacyWriteLea` | libdft_core_dr.cpp:169-185 | the same for 10-field records |
| `Sinks.WriteRecord` | clients/vuzzer_cmp_sink/main.cpp:60-73 | the same for the client's writer |
| `Sinks.BodyInOrder` | libdft_core_dr.cpp:155-161 | fields come out in order, each followed by a blank |
| `Sinks.LineLayout` | clients/vuzzer_cmp_sink/main.cpp:67-72 | field k stands after the k fields before it and their blanks, and the line ends in a newline |
| `Sinks.DroppedRecords` | libdft_core_dr.cpp:151-154 | a record is dropped iff some filtered field has more comma-separated tokens than the limit |
| `Sinks.WritersAgree` | clients/vuzzer_cmp_sink/main.cpp:75-85 | both writers produce identical bytes for 21-field and 10-field records |
| `Sinks.RecordLayout` | libdft_core_dr.cpp:601-633 | which of the 21 fields hold the heading, the byte tags and the values |
| `Sinks.GateOfOneByte` | libdft_core_dr.cpp:786-797 | the gates on one byte: any taint, or 1 to limit offsets |
| `Sinks.CmpR2R` | libdft_core_dr.cpp:601-633 | a record is built iff some compared byte is tainted, with the bytes' sets |
| `Sinks.CmpM2M` | libdft_core_dr.cpp:775-818 | a record is built iff some byte passes the window test, with the bytes' sets |
| `Sinks.FilterMeansLimit` | libdft_core_dr.cpp:151-154 | a record passes the filter iff the limit is positive and no byte exceeds it |
| `Sinks.GatesAgree` | libdft_core_dr.cpp:786-797 | the CMPS gate and the plain gate let the same records reach the file, for every limit |
| `Sinks.CmpsReachesFile` | libdft_core_dr.cpp:775-818 | exactly when a CMPS record reaches the file |
| `Queries.Fold` | src/api_tag.cpp:80-84 | any bracketing of combines denotes the union of its leaves |
| `Queries.FoldTwice` | src/api_tag.cpp:80-84 | two folds give one id iff their leaves have one union |
| `Queries.GetMemTagRange` | src/api_tag.cpp:115-122 | the id of the union over the range |
| `Queries.GetRegTagRange` | src/api_tag.cpp:166-175 | the id of the union over the span |
| `Queries.PointedIsTainted` | src/api_sinks.cpp:177-186 | the early exit holds iff the union is non-empty |
| `Queries.HasTaintedOperand` | src/api_sinks.cpp:99-104 | holds iff the operand union is non-empty |
| `Queries.OperandUnion` | src/api_sinks.cpp:106-112 | the id of the union over the operands |
| `Queries.ComputeGprMask` | libdft_api_dr.h:109-123 | bit r in 3..18 is set iff one of the row's low 8 bytes is tainted, other bits are clear |
| `Queries.RowTaintedMeans` | libdft_api_dr.h:109-123 | a row counts as tainted iff one of its bytes 0 to 7 holds a label |

## Left out

- DynamoRIO calls, thread contexts and register values: the model starts at handler arguments, with a taken bit for CMOV; instruction operands enter as register spans and effective addresses.
- The compressed bitmap: modelled as a finite set with its documented text and ascending iteration.
- TagTables.TagTable.NumberOfOnes: does not model the cast of the count to 32 bits, which matters only for a set of 2^32 offsets.
- TagText.CommaTokens: does not model 32-bit overflow of the counter.
- Engines.Engine.LeaProp: does not build the lea.out record, only the propagation; the record's writer is modelled.
- Registers.LoweredIsWellFormed: does not model operand discovery in decoded instructions, except the choice of CMPXCHG's accumulator.
- Comparison builders for register-memory and immediate operands: they follow the two that are modelled.
- The value fields of comparison records and hexadecimal formatting: passed in as text.
- `post_mmap_hook`: it depends on stat and moves the application's cursor.
- Descriptor duplication that is not hooked (fcntl, descriptor passing, fork).
- ShadowDirectory.SplitIsBijective: does not connect division and remainder to the machine words' shifts and masks; `ShiftsAndMasks` states the same bijection on those words.
- TagTables.UnpackOfPack: the key is a product and a sum; `ShiftedKey` states the same on machine words.
- Mnt.Consumer.OnModuleLoad: modules are loaded where no loaded module is, as an operating system does.
- Header checks and candidate paths of `.mnt.bin` files: a file is absent, rejected by its header, or read as words.
- The parser and lookup of `libc_summaries.conf`, sink registration, option parsing, logging and the compatibility shim: plumbing.
- Value-level soundness against x86 (carries, upper halves of 32-bit writes, REP strings, SSE and x87), which the code approximates or omits.
- Multi-threading: the table is unlocked and single-threaded.
