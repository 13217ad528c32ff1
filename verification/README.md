# Jumpstart verification

A Dafny model of the parts of Jumpstart that carry its correctness, with proofs.
`dafny verify dfyconfig.toml` checks everything.

The model covers five cores.

* **Page tables.** The generator compiles a list of memory mappings into sparse page-table
  memory; a Python walker and a C walker interpret that memory. The walk of the tables is proved
  to be exactly the mapping list, a build to succeed exactly when it can, and the two walkers to
  agree. Modules, bottom up: `Bits` and `Modes` (bit fields, mode tables), `Pte` and `TableWalk`
  (entries, the Python walker), `PageTables` and `PageTableBuilder` (what a build needs and leaves;
  the builder as a class), `PageTableMeaning` and `MappingMeaning` (what a walk of it gives),
  `Canonical` (source-disjoint mappings), `CWalk` (the C walker), `NestedWalk` (several stages),
  `Emission` (the assembled image), `Layout` (overlap checks, linker guards), `Pools` (where the
  tables of the stages go), `Generation` (the check of the memory map and the pipeline of one stage), `Limits` (inputs the generator does not check, with exact conditions).
* **Heap.** `HeapSpec` is the chunk list as a value, `HeapPlacement` says where blocks come to lie and
  that the heap is nothing but its blocks and its cursor, `HeapMemory` is the C code over a memory of
  words in which chunk headers and payloads are stored side by side, `HeapRuns` the refinement of
  an abstract allocator over every sequence of requests.
* **Context saves.** `ContextStack` gives each trap-handler and cross-mode-call routine, and the fail
  routines, as a function of a thread's registers, control registers, attributes and save memory;
  `ContextRoutines` has the routines as imperative code; `ContextRuns` proves that they implement
  a stack of contexts in every properly nested run; `ContextFailures` says what every failure in
  such a run leads to.
* **Barrier and set-up race.** `Barrier` and `HeapSetup` are state machines with one step for each
  access to shared memory; `Interleaving` says what a run is, `SyncWord` what the barrier's
  instructions compute, and `BarrierRuns` what every run of the barrier guarantees.
* **Formatted output.** `PrintfSpec` defines the untruncated output of a format; `Printf` has the
  loops of `vsnprintf` and `ksprintn`; `PrintfC99` defines the fields the C standard asks for and
  says exactly when the two agree; `PrintfReading` counts the arguments of a format and proves that
  directives use them in order; `PrintfGrammar` has the directives as a grammar, each of which is
  read as it is written.

The architecture is the RISC-V Privileged Architecture 1.12: sections 4.3.2, 4.4 and 4.5 for the
walk, Sv39 and Sv48, section 8.5.1 for Sv39x4 and Sv48x4. Formatted output is sections
7.19.6.1 and 7.19.6.12 of C99.

## Conventions and assumptions

* Addresses and table entries of the generator are unbounded integers, as in Python. In the C
  code they are 64-bit words. `HeapMemory` takes any heap that ends below 2^64 and is at most 2^63
  bytes long; the one computation that can wrap there, of `memalign`, is modelled with its wrap.
* A pool of table pages lies below 2^56. Mappings are described by `MappingMeaning.Accepted`: what
  the generator checks (destination alignment, page size) and what it leaves to its caller (source
  alignment, every page canonical, destination below 2^56). `Limits` states what happens without.
* A thread starts in M mode with both save regions unused and environment calls delegated as M
  mode sets it up (src/common/jumpstart.mmode.S:143-190). A trap handler's prologue, a return
  path and a cross-mode call are one step each.
* Between the routines a program may change its general registers and nothing else: it does not
  write the save regions or the attributes and does not change the control registers of traps.
* Interleavings are sequentially consistent.
* Every lemma carries `{:induction false}`: inductions are written out.

## Findings

Where the code does not do what its promise suggests, the model follows the code.

* In Sv39x4 and Sv48x4 a mapping of pages below the root level can be built only if its last page
  starts in the lower canonical half: the index offset computed in the 16 KiB root is checked
  against the size of the 4 KiB next table (scripts/memory_management/page_tables.py:511-516).
  Mappings that the generator's own checks accept are refused, such as two 4 KiB pages across the
  end of that half or any page in the upper half. See `Limits.MappingPlacedExactly`,
  `Limits.ListPlacedExactly` and `Limits.X4MappingsRefused`.
* Only the destination of a mapping is checked for alignment
  (scripts/memory_management/memory_mapping.py:235). A page whose source is not aligned is
  translated with the misalignment added. See `Limits.SourceTranslatesExactlyIfAligned`.
* The C walker adds 12 offset bits whatever the level of the leaf, so inside a superpage it is
  right only in the first 4 KiB. See `CWalk.SameTranslation`.
* A linker section that is merged with one that starts earlier and ends earlier loses its tail: the
  start is moved before the end is compared (scripts/memory_management/linker_script.py:106-110).
  See `Layout.MergeIsHullExactly`.
* `run_function_in_umode` does not clear hstatus.SPV and `run_function_in_smode` does not clear
  mstatus.MPV. Called from a handler of a trap taken from VS or VU mode, they enter a virtual
  mode, and the completing system call of the function fails. Such a call delivers the function's
  own status if and only if the bit was clear. See `ContextRuns.CallLandsExactly`,
  `ContextFailures.DeliversExactly`, `ContextRuns.StaleModeIsReachable` (both calls, from set-up) and
  `ContextRuns.StaleOnlyInHandlers`.
* What comes instead: the fail routine of S mode completes `run_function_in_smode` with DIAG_FAILED,
  while the frame that the failing handler took of the S region stays taken; the enclosing
  `run_function_in_vsmode` then resumes its caller with the registers in that frame. See
  `ContextFailures.StaleSmode`, `ContextFailures.OrphanIsTaken` and, from set-up,
  `ContextFailures.StaleSmodeRun`. A stale `run_function_in_umode` never comes back: S mode goes on
  at the return point of `run_function_in_vsmode` with the registers of the user function. See
  `ContextFailures.StaleUmode` and `ContextFailures.StaleUmodeRun`.
* In general the fail routines of S and VS mode (scripts/generate_diag_sources.py:917-926,
  src/common/jumpstart.vsmode.S:107-109) take the innermost frame of the M or the S region for that of
  the call they complete. Of the M region it always is; frames of the S region taken since stay
  taken. Of the S region it is not when a VS handler fails, whose own frame is on top. See
  `ContextFailures.FailureSettles` for every failing event, `ContextFailures.GoesOnFromM` and
  `ContextFailures.GoesOnFromS` for exactly when the regions are right afterwards.
* The completion of `run_function_in_umode` does not clear hstatus.SPV either
  (src/common/jumpstart.smode.S:372-409). Only the delegation that M mode sets up keeps a stale call
  away from it; without that delegation the caller would be resumed in VS mode. See
  `ContextRuns.UndelegatedUmode`.
* While a function runs in a virtual mode with the V-bit attribute clear, a trap to VS mode fails at
  the look-up of its handler (src/common/trap_handler.smode.c:172-175); `ContextRuns.CanGo` says so.
* `lw` sign-extends, so a mask with bit 31 set and the upper half of the register clear never equals
  the loaded sync word, and nobody leaves the barrier. That is how `li` leaves a 32-bit mask, and how
  C passes one to the uint64_t parameter (include/common/jumpstart.h:149-152); a register that holds
  the mask sign-extended is not meant here and not modelled. See
  `BarrierRuns.PassableExactlyBelowBit31`.
* The unlocked path of `setup_heap` compares the start of the heap and not its size
  (src/common/heap.smode.c:329-338), so a late caller with another size returns. See
  `HeapSetup.OtherSizeReturns`, and `HeapSetup.FailsExactly` for who is refused on each path.
* In a heap near the top of memory `memalign` takes chunks that do not hold the block: rounding up,
  or adding the size, wraps (src/common/heap.smode.c:554-576). See `HeapMemory.WordFitsExactly`,
  `HeapMemory.SearchesAgreeExactly`, `HeapMemory.NeverMisjudgedBelow` and
  `HeapMemory.MisjudgedAtTheTop`.
* The message of the walker says "R=0 and X=1" where the test is for R=0, W=1
  (scripts/generate_diag_sources.py:1421).
* In a right-justified field the flag `0` replaces the precision, where C99 ignores the flag when a
  precision is given: `%05.2d` of 7 is `00007` and not three blanks and `07`. The flag `+` prints
  nothing, `%#X` prints `0x`, a zero with precision zero is not suppressed, and the alternative
  octal form adds a zero where the precision has put one. `%hhd` prints an unsigned char, since
  plain char is unsigned on RISC-V. For the flags that the code reads these are all the departures
  of the numeric conversions: `PrintfC99.ConversionsAgreeExactly`, with
  `PrintfC99.FieldsAgreeExactly`, `PrintfC99.PlainFieldsAgreeExactly`,
  `PrintfC99.ValuesAgreeExactly` and `PrintfC99.ZeroPrecisionExample`.
* `%tn` stores an int, where the standard has a ptrdiff_t: the code looks at every other length modifier
  there (src/common/string.smode.c:251-265). See `PrintfC99.CountsAgreeExactly`.
* The flag ' ' of the standard is not known. A directive with it is copied as text, and so is the rest of
  the format. See `PrintfGrammar.UnknownIsText`.
* `%c` ignores the width, `%.*s` with a negative precision shows nothing, and `*` with a negative
  width toggles left-justification where C99 turns it on. See `PrintfC99.CharactersAgreeExactly`,
  `PrintfC99.StringsAgreeExactly` and `PrintfC99.StarsAgreeExactly`.

## Model

| member | source | states |
|---|---|---|
| Bits.ExtractPlaced | scripts/data_structures/bitfield_utils.py:9-18 | a field just placed is extracted again |
| Bits.ExtractOther | scripts/data_structures/bitfield_utils.py:9-18 | placing a field leaves every field apart from it alone |
| Bits.PlaceBound | scripts/data_structures/bitfield_utils.py:14-18 | placing a field below bit n in a value below 2^n stays below 2^n |
| Modes.SlotStep | scripts/memory_management/page_tables.py:225-286 | the page number at a level is the one above times 512 plus the level's index |
| Modes.SlotPrefix | scripts/memory_management/page_tables.py:225-286 | addresses in the same page at a level share pages and indices at all levels above |
| Modes.SameTableSameSlot | scripts/memory_management/page_tables.py:384-421 | same table and same index name the same page number, although the address mask of the x4 modes is one bit short |
| Modes.PageOffsetIs | scripts/generate_diag_sources.py:1443-1445 | the offset bits added at a leaf are the address modulo the leaf's page size |
| Modes.TableSizeIs | scripts/memory_management/page_tables.py:225-286 | a table has 8 bytes for every value of its level's index: 4096, and 16384 exactly for the root of the x4 modes |
| Modes.IndexIs | scripts/memory_management/page_tables.py:225-286 | indices, page sizes and address widths as numbers: nine bits a level above the twelve of the page offset, eleven at the root of the x4 modes |
| Pte.LeafReads | scripts/memory_management/page_tables.py:519-564 | a leaf entry reads back its attributes and the page it maps, whatever the page |
| Pte.LeafIs | scripts/memory_management/page_tables.py:517-560 | a leaf entry as a number: V + 2 XWR + 16 U + 64 + 128 + 2^10 times the page number below 2^44 + 2^61 times the memory type 0, 1 or 2, with U the given bit or 0 |
| Pte.NonLeafIs | scripts/memory_management/page_tables.py:505-556 | a pointer entry as a number: 1 + 2^10 times the page number below 2^44 |
| Pte.ReadFieldsAre | scripts/generate_diag_sources.py:1416-1436 | the fields a walker takes from an entry as quotients and remainders of the number |
| Pte.NonLeafReads | scripts/memory_management/page_tables.py:505-516 | a pointer entry reads back as valid, with no permissions, A or D, and its table's address |
| Pte.PlacedAddress | scripts/memory_management/page_tables.py:545-556 | placing the page number of an address and gathering it again drops exactly the low twelve bits |
| Pte.PageOfAligned | scripts/memory_management/page_tables.py:511-516 | an address less than 4 KiB past an aligned one has that page, so the index offset added to a table pointer is dropped |
| TableWalk.TranslateStage | scripts/generate_diag_sources.py:1375-1456 | the walker's loop, which calls itself to translate each entry's address in the next stage, with every failure it distinguishes, is the recursive walk of the stages |
| TableWalk.LastStage | scripts/generate_diag_sources.py:1389-1456 | without a next stage that walk is the walk of the one stage's tables |
| TableWalk.ExtractFields | scripts/generate_diag_sources.py:1416-1436 | the fields the walker takes from an entry, the address gathered part by part |
| TableWalk.StepAtLeaf | scripts/generate_diag_sources.py:1420-1432 | at a built leaf the walk ends, with the page and offset or with the fault the attributes ask for |
| TableWalk.StepAtNonLeaf | scripts/generate_diag_sources.py:1420-1441 | at a built non-leaf entry the walk descends to that table |
| TableWalk.StepIs | scripts/generate_diag_sources.py:1416-1445 | one step of the walk by the bits of the entry: V, W without R, R or X, A, D, and the last level, in this order; a leaf adds the address modulo the page size |
| PageTables.SplitMappings | scripts/memory_management/page_tables.py:432-449 | the loop produces every page of every mapping, in order |
| PageTables.SplitMembers | scripts/memory_management/page_tables.py:432-449 | the split list contains exactly page k of mapping i for all i and k |
| PageTables.SplitInOrder | scripts/memory_management/page_tables.py:432-449 | the pages of a list of mappings are those of its first part and then those of its second |
| PageTables.SplitOne | scripts/memory_management/page_tables.py:432-449 | of one mapping they are page after page, source and destination advanced by the page size |
| PageTables.ContainsIsSameKey | scripts/memory_management/page_tables.py:330-338 | a table page is found for an address exactly when level and address prefix agree |
| PageTables.SameAddress | scripts/memory_management/page_tables.py:489-503 | two entries at the same address are the same index of the same table: tables do not overlap |
| PageTables.GrowKeeps | scripts/memory_management/page_tables.py:384-421 | allocating a table page disturbs nothing written before |
| PageTables.WriteKeeps | scripts/memory_management/page_tables.py:451-462 | writing one entry extends what is written and keeps every word accounted for |
| PageTables.ConflictIsIncompatible | scripts/memory_management/page_tables.py:451-462 | a conflicting write means that an earlier page overlaps this one with other contents |
| PageTables.WrittenIsCompatible | scripts/memory_management/page_tables.py:472-568 | a memory in which all pages are written proves that no two of them conflict |
| PageTables.PoolTooSmall | scripts/memory_management/page_tables.py:399-408 | running out of pages proves that the distinct tables needed do not fit the pool |
| PageTables.PoolEnough | scripts/memory_management/page_tables.py:399-408 | a finished build proves that they fit |
| PageTableBuilder.Builder.constructor | scripts/memory_management/page_tables.py:342-370 | starts with no pages and empty memory |
| PageTableBuilder.Builder.GetNewPage | scripts/memory_management/page_tables.py:384-421 | returns the table of the prefix, the existing one if there is one, else one new page; fails only when the pool is used up or the root is misaligned |
| PageTableBuilder.Builder.WriteSparseMemory | scripts/memory_management/page_tables.py:451-462 | fails exactly on a different value at the address; otherwise stores exactly that word |
| PageTableBuilder.Builder.WriteLevel | scripts/memory_management/page_tables.py:489-568 | one turn of the inner loop: the level's table and entry, with every earlier entry kept; each failure has a cause in the page list |
| PageTableBuilder.Builder.WritePage | scripts/memory_management/page_tables.py:476-568 | all levels of one page |
| PageTableBuilder.Builder.CreateFromMappings | scripts/memory_management/page_tables.py:472-586 | succeeds exactly when the pages are well formed, pairwise compatible, the root aligned and the distinct (level, prefix) tables fit the pool; then the memory holds all their entries and nothing else |
| PageTableBuilder.Builder.FillEnds | scripts/memory_management/page_tables.py:572-586 | the first and the last word of the table memory are present, and nothing written changes |
| PageTableBuilder.ExplainedIsUnbuildable | scripts/memory_management/page_tables.py:384-568 | every reported failure is a reason for which no build can succeed |
| PageTableBuilder.TableAligned | scripts/memory_management/page_tables.py:399-421 | every table starts at a multiple of 4 KiB |
| PageTableBuilder.LeafEntry | scripts/memory_management/page_tables.py:517-560 | the leaf entry, built field by field |
| PageTableBuilder.NonLeafEntry | scripts/memory_management/page_tables.py:489-556 | the non-leaf entry, built field by field |
| PageTableMeaning.BuiltEntryReads | scripts/memory_management/page_tables.py:505-556 | an entry in memory reads as the next table or as the page's leaf; the index offset added to a pointer is dropped |
| PageTableMeaning.WalkAlong | scripts/generate_diag_sources.py:1389-1456 | from any of its tables on, the walk at a covered address reaches the page's leaf, and ends at that entry |
| PageTableMeaning.WalkNowhere | scripts/generate_diag_sources.py:1389-1441 | a walk at an address that no page covers faults |
| PageTableMeaning.WalkMeaning | scripts/generate_diag_sources.py:1375-1456 | walking built tables gives the covering page's result after as many entries as its level, the last of which is the page's leaf entry, and faults when there is none |
| MappingMeaning.PageCovers | scripts/memory_management/page_tables.py:432-449 | page k of a mapping covers exactly the addresses k pages from its start, modulo the address width |
| MappingMeaning.MappedWalk | scripts/generate_diag_sources.py:1375-1456 | at a mapped address the walk gives destination plus distance, superpages included, or faults if the mapping is invalid |
| MappingMeaning.MappedEntry | scripts/memory_management/page_tables.py:472-568 | at a mapped address the walk ends at an entry that is, as a number, the mapping's valid bit, permissions, user bit and memory type, A and D set, and the number of the mapping's page |
| MappingMeaning.UnmappedWalk | scripts/generate_diag_sources.py:1375-1456 | at an unmapped address the walk faults |
| MappingMeaning.BuiltTablesMeanMappings | scripts/memory_management/page_tables.py:472-568 | a walk of built tables translates va to pa if and only if some mapping asks for it |
| MappingMeaning.OrderAndPlacementDoNotMatter | scripts/memory_management/page_tables.py:472-568 | builds of the same mappings in any order, with any pool, translate every address alike |
| Canonical.CanonicalIs | scripts/memory_management/memory_mapping.py:347-382 | the check on the upper bits accepts exactly the two canonical ranges |
| Canonical.CanonicalRanges | scripts/memory_management/memory_mapping.py:347-382 | the two ranges as numbers for each mode: the lowest and the highest 2^38, 2^47, 2^39 and 2^48 bytes |
| Canonical.CanonicalFits | scripts/memory_management/memory_mapping.py:324-382 | a mapping with all pages canonical does not wrap around the address width |
| Canonical.DisjointStaysApart | scripts/memory_management/page_tables.py:472-568 | source-disjoint canonical mappings stay disjoint modulo the address width |
| Canonical.DisjointMeansCompatible | scripts/memory_management/page_tables.py:451-462 | their pages, of whatever mixed sizes, write equal values to every entry they share |
| Canonical.DisjointNeverConflicts | scripts/memory_management/page_tables.py:451-462 | building them never reports a conflicting entry |
| Canonical.DisjointBuildable | scripts/memory_management/page_tables.py:384-421 | building them succeeds exactly when the pages can be placed, the root is aligned and the tables fit the pool |
| CWalk.PlaceWordBitsIs | src/common/utils.smode.c:18-23 | the 64-bit place_bits agrees with the unbounded one on fields below bit 64 |
| CWalk.GatherWordFields | src/common/tablewalk.smode.c:110-117 | the loop that gathers the page number from its parts |
| CWalk.TranslationInfo.Record | src/common/tablewalk.smode.c:89-96 | a visited entry is recorded behind the earlier ones, in a trace that is zero behind it |
| CWalk.TranslationInfo.Translate | src/common/tablewalk.smode.c:60-142 | the C loop computes the walk over words, fills the trace with the entries visited and zeroes, and leaves address 0 and the memory type as it was where the walk does not succeed |
| CWalk.WalkersAgree | src/common/tablewalk.smode.c:60-142 | on any memory of emitted words, with zero read elsewhere, the C walker succeeds exactly when the Python one does, visits the same entries, stops for the same reason and takes the memory type from bits 62 and 61 of the last entry |
| CWalk.SameWords | src/common/tablewalk.smode.c:88-94 | two memories that agree on the entries a walk reads give the same walk |
| CWalk.SameTranslation | src/common/tablewalk.smode.c:140-141 | the physical addresses agree if and only if the address is within the first 4 KiB of its leaf, so always for 4 KiB leaves |
| CWalk.RegisterNamesRoot | scripts/generate_diag_sources.py:934-951 | the address translation register set up by the generator, 2^60 times the mode plus the root's page number, names the root table and the mode to the C walker |
| NestedWalk.VisitedInPool | scripts/generate_diag_sources.py:1389-1441 | every entry a walk reads lies in the pool, in a table that is emitted, whatever the address |
| NestedWalk.OnlyTheTablesMatter | src/common/tablewalk.smode.c:88-94 | so the C walk of built tables is the same whatever memory holds outside the emitted tables |
| NestedWalk.PoolMapsToItself | scripts/generate_diag_sources.py:365-399 | the mapping added for the tables translates the pool to itself |
| NestedWalk.NextStageDecides | scripts/generate_diag_sources.py:1395-1405 | a walk faults at the first entry it visits whose address does not translate in the next stage, whatever stages follow that; if there is none it is the walk of the one stage |
| NestedWalk.TwoStageIsOneStage | scripts/generate_diag_sources.py:1395-1405 | a two-stage walk whose entries translate in the next stage is the one-stage walk |
| NestedWalk.NestedWalkNeverFaultsOnEntries | scripts/generate_diag_sources.py:400-421 | with the VS tables mapped in the G stage, every VS entry translates to itself and the two-stage walk never faults on one |
| NestedWalk.OwnLoadsTranslate | src/common/tablewalk.smode.c:88-94 | with the S tables mapped in themselves, each load of the C walker translates to itself |
| Emission.GeneratePageTables | scripts/generate_diag_sources.py:984-1005 | the emitted run, placed at the first address, is the sparse memory with zeroes in its gaps, and ends with the last word |
| Emission.EmissionSpansTables | scripts/memory_management/page_tables.py:572-586 | for a build that run starts at the first table page and ends where the last one ends |
| Layout.SortApart | scripts/public/functions.py:8-31 | sorting changes neither way whether ranges overlap |
| Layout.NeighboursDecide | scripts/public/functions.py:8-31 | in sorted order, neighbours that do not overlap mean that no two ranges do, and conversely for non-empty ranges |
| Layout.CheckForAddressOverlaps | scripts/public/functions.py:8-31 | accepts non-empty ranges exactly when they are pairwise disjoint |
| Layout.GuardsKeepApart | scripts/memory_management/linker_script.py:162-191 | guard pages in the gaps overlap neither the sections nor each other |
| Layout.GapsAreGuarded | scripts/memory_management/linker_script.py:162-191 | every section but the last is followed at once by a section or a guard, and a guard is only where a gap is |
| Layout.MergeIsHullExactly | scripts/memory_management/linker_script.py:100-110 | a merged section covers both if and only if the other one does not both start and end earlier; otherwise it loses its tail |
| Layout.GuardsWithin | scripts/memory_management/linker_script.py:162-205 | guards are inside the ELF address range exactly when the sections are |
| Layout.LayOut | scripts/memory_management/linker_script.py:160-215 | accepts whole-page sections exactly when they are inside the ELF address range and pairwise disjoint, and then the layout with guards is sorted, inside and disjoint, with a 4 KiB guard in every gap and nowhere else |
| Generation.RangesDisjoint | scripts/public/functions.py:34-45 | the checked source ranges are pairwise disjoint if and only if the mappings are pairwise source-disjoint |
| Generation.ApartNeverConflicts | scripts/memory_management/page_tables.py:451-462 | a memory map that passed the check never meets a conflicting entry |
| Generation.CheckMemoryMap | scripts/public/functions.py:34-103 | accepts a memory map of non-empty mappings exactly when sources are disjoint, destinations of mappings that are no aliases are disjoint, and each alias's destination is part of one of those |
| Generation.DestsApart | scripts/public/functions.py:62-66 | the checked destination ranges are pairwise disjoint if and only if the destinations of every two mappings that are no aliases are |
| Generation.OneAddressWithoutAliases | scripts/public/functions.py:62-66 | in such a map no physical address has two translations that are not aliases |
| Generation.AliasesAreOfMappings | scripts/public/functions.py:68-98 | every physical address an alias translates to belongs to a mapping that is no alias |
| Generation.GenerateStage | scripts/generate_diag_sources.py:300-329 | check and build together: the memory translates exactly as the mappings ask, or the failure has its cause and is never a conflict |
| Generation.TargetTranslatesMappings | src/common/tablewalk.smode.c:60-142 | on the target, the C walk of generated tables succeeds at every mapped address, with the mapping's memory type, and with its address exactly within the first 4 KiB of a page |
| Generation.TargetRefusesUnmapped | src/common/tablewalk.smode.c:60-142 | on the target, the C walk succeeds at no unmapped address |
| Pools.NextMultipleIs | scripts/generate_diag_sources.py:372-378 | the rounded start is the first multiple of the root table's size at or behind the start |
| Pools.AddPagetableMappings | scripts/generate_diag_sources.py:352-398 | the pools of the stages follow each other, each from the first multiple of 4 KiB, or 16 KiB in an x4 mode, at or behind the end of the one before, and each is mapped to itself |
| Pools.PoolsAreApart | scripts/generate_diag_sources.py:370-398 | no two stages share a table page, and a misaligned root table, one of the builder's failures, does not arise |
| Limits.PlaceableExactly | scripts/memory_management/page_tables.py:505-516 | pages below the root level can be placed everywhere in Sv39 and Sv48, and exactly in the lowest quarter in the x4 modes |
| Limits.MappingPlacedExactly | scripts/memory_management/page_tables.py:511-516 | which mappings that pass the generator's checks have all pages placed: all in Sv39 and Sv48; in the x4 modes those of root-level pages, and otherwise exactly those whose last page starts in the lower half |
| Limits.ListPlacedExactly | scripts/memory_management/page_tables.py:472-516 | the same for a list of mappings: every page is placed if and only if every mapping has room |
| Limits.X4MappingsRefused | scripts/memory_management/memory_mapping.py:347-382 | two Sv39x4 mappings that pass the checks, one across the end of the lower half and one in the upper half, with which no list builds |
| Limits.BuildableExactly | scripts/memory_management/page_tables.py:384-421 | what any build asks of its pool: as many 4 KiB pages as distinct tables are needed, three more and a 16 KiB start in the x4 modes |
| Limits.OnePageBuildsExactly | scripts/memory_management/page_tables.py:384-421 | a page at level l needs l + 1 tables: it builds if and only if it is well formed and, in Sv39 and Sv48, the start is a multiple of 4096 and l + 1 <= max, in the x4 modes the start is a multiple of 16384 and l + 4 <= max |
| Limits.SourceTranslatesExactlyIfAligned | scripts/memory_management/memory_mapping.py:233-238 | a built page translates its source address to its destination if and only if the source is aligned |
| HeapSpec.SearchFails | src/common/heap.smode.c:87-116 | the two-pass search from the cursor sees every chunk: it fails exactly when none fits |
| HeapSpec.AlignToMinAllocIs | src/common/heap.smode.c:20-34 | sizes are rounded up to the next multiple of eight |
| HeapSpec.TakeKeeps | src/common/heap.smode.c:184-204 | taking a chunk, split or whole, keeps the tiling and leaves no two free neighbours |
| HeapSpec.TakeLive | src/common/heap.smode.c:184-204 | it adds exactly the one block to those in use |
| HeapSpec.FitsAlignedMeans | src/common/heap.smode.c:536-577 | a chunk serves an aligned request exactly if it starts aligned with room, or holds an aligned slot at least 24 bytes in with room |
| HeapSpec.AlignUpIs | src/common/heap.smode.c:536-577 | rounding up gives the least multiple not below |
| HeapSpec.SplitKeeps | src/common/heap.smode.c:590-612 | cutting a chunk before an aligned slot keeps the tiling and leaves a piece of at least eight payload bytes |
| HeapSpec.AllocateAlignedKeeps | src/common/heap.smode.c:519-627 | the aligned block is a multiple of the alignment with room for the size, and is the only new block |
| HeapSpec.ReleaseIsJoins | src/common/heap.smode.c:249-273 | freeing joins with the next and then with the previous chunk if they are free |
| HeapSpec.ReleaseKeeps | src/common/heap.smode.c:249-273 | afterwards no two neighbours are free and the tiling holds |
| HeapSpec.FreeKeeps | src/common/heap.smode.c:210-311 | freeing removes exactly its block, and the cursor is null or names a used chunk |
| HeapSpec.LiveBlocks | src/common/heap.smode.c:146-208 | blocks in use are 8-aligned, inside the heap, and at least a header apart |
| HeapSpec.TotalIs | src/common/heap.smode.c:429-445 | sizes and headers add up to the heap's size |
| HeapSpec.IdleHeapIsOneChunk | src/common/heap.smode.c:429-450 | a heap with nothing in use is one free chunk |
| HeapPlacement.SearchIsNextFit | src/common/heap.smode.c:87-116 | the search takes the first fitting chunk behind the cursor in address order or, if none is behind it, the first of the heap |
| HeapPlacement.MallocPlaces | src/common/heap.smode.c:146-208 | a block is at the start of the next chunk with room, takes n bytes if the chunk has n + 24 and all of it otherwise, and the cursor moves to its header |
| HeapPlacement.MemalignPlaces | src/common/heap.smode.c:519-627 | an aligned block is in the next chunk that can hold it, at its start if that is aligned and else at the least multiple 24 bytes in; size and cursor likewise |
| HeapPlacement.FreeMovesCursor | src/common/heap.smode.c:243-307 | freeing moves the cursor only off the freed block: to the next used chunk behind it or, if there is none, to the last before it, or to null |
| HeapPlacement.HeapIsItsBlocks | src/common/heap.smode.c:146-311 | two valid heaps over the same bytes with the same blocks and cursor are equal, so what requests do to blocks and cursor is all they do |
| HeapMemory.ChunkIterator.constructor | src/common/heap.smode.c:87-95 | starts at the cursor, or at the head if there is none |
| HeapMemory.ChunkIterator.Next | src/common/heap.smode.c:97-116 | yields the chunks in order from the start, wrapping once, each exactly once, then null |
| HeapMemory.HeapInfo.Malloc | src/common/heap.smode.c:146-208 | over memory: fails as the code does, else does what the abstract allocation does, and writes no word of another live payload |
| HeapMemory.HeapInfo.FindChunk | src/common/heap.smode.c:165-182 | finds the first fitting chunk from the cursor |
| HeapMemory.HeapInfo.TrimChunk | src/common/heap.smode.c:188-204 | splits off the rest when it can hold a chunk, touching only header words |
| HeapMemory.WordFitsExactly | src/common/heap.smode.c:544-582 | the 64-bit test of a chunk for an aligned request is right if and only if neither rounding up nor adding the size wraps; where one does, a chunk that does not hold the block is taken |
| HeapMemory.NeverMisjudgedBelow | src/common/heap.smode.c:544-582 | nothing wraps in a heap that ends far enough below 2^64 for the size and the alignment |
| HeapMemory.SearchesAgreeExactly | src/common/heap.smode.c:541-582 | the code's search finds the chunk it should if and only if the first chunk from the cursor that passes its test is not misjudged |
| HeapMemory.MisjudgedAtTheTop | src/common/heap.smode.c:544-582 | the heap set up on the 48 bytes from 2^64 - 64: no chunk serves 8 bytes at a multiple of 64, but its one chunk is taken, for a block at address 0 |
| HeapMemory.HeapInfo.TakeAligned | src/common/heap.smode.c:584-620 | takes the chunk found as the abstract aligned allocation does; no other live payload is written |
| HeapMemory.HeapInfo.Memalign | src/common/heap.smode.c:487-627 | over memory: refuses what is no power of two, small alignments are plain allocations, others, where the first chunk found is not misjudged, the aligned allocation; no other live payload is written |
| HeapMemory.HeapInfo.FindAlignedChunk | src/common/heap.smode.c:525-582 | finds the first chunk from the cursor that serves the aligned request, and where in it |
| HeapMemory.HeapInfo.SplitChunk | src/common/heap.smode.c:590-612 | writes the second header before the slot and only headers |
| HeapMemory.HeapInfo.Free | src/common/heap.smode.c:210-311 | over memory: null and addresses below the heap are ignored, a double free and any address without the mark of a block in use fail, else exactly the block is freed; no other live payload is written |
| HeapMemory.PayloadWriteKeeps | src/common/heap.smode.c:146-208 | a word stored in a block touches no header and no other block |
| HeapMemory.HeapInfo.OwnerWrites | src/common/heap.smode.c:146-208 | the owner of a live block may store in it at any time: the heap stays valid and every other block as it was |
| HeapMemory.HeapInfo.Coalesce | src/common/heap.smode.c:249-273 | joins with both free neighbours, touching only header words |
| HeapMemory.HeapInfo.FindUsedAfter | src/common/heap.smode.c:279-307 | the next used chunk, to which the cursor moves |
| HeapMemory.HeapInfo.Setup | src/common/heap.smode.c:316-411 | the initial heap is one free chunk; a second set-up changes nothing and succeeds for the same start |
| HeapMemory.HeapInfo.Deregister | src/common/heap.smode.c:413-452 | succeeds exactly when no chunk is used; the size check never fails |
| HeapMemory.PowerOfTwoIs | src/common/heap.smode.c:487-510 | the bit test accepts exactly the powers of two |
| HeapRuns.MallocFails | src/common/heap.smode.c:146-182 | null exactly when every chunk is used or smaller than the rounded size, and then nothing changes |
| HeapRuns.MemalignFails | src/common/heap.smode.c:519-582 | null exactly when no free chunk has room at its start, if that is aligned, or at a multiple 24 bytes in or more, and then nothing changes |
| HeapRuns.StepRefines | src/common/heap.smode.c:146-627 | each request is a step of an allocator that knows only the set of live blocks |
| HeapRuns.RunKeepsInvariant | src/common/heap.smode.c:146-627 | in every run the chunks tile the heap, no two neighbours are free and the cursor is right |
| HeapRuns.IdleRunRestoresHeap | src/common/heap.smode.c:386-391 | whatever ran, a heap with no live block is the initial heap |
| HeapRuns.FreesRemove | src/common/heap.smode.c:210-311 | freeing a list of blocks, in any order, removes exactly those |
| HeapRuns.FreeingAllRestores | src/common/heap.smode.c:210-311 | freeing all blocks in any order restores the initial heap |
| HeapRuns.AllocationIsNextFit | src/common/heap.smode.c:146-627 | an allocation of either kind that succeeds leaves the cursor 16 bytes before the block, which lies in the next chunk with room behind the old cursor |
| HeapRuns.NextFitFollows | src/common/heap.smode.c:87-208 | next fit over two allocations, other blocks freed between them: the second block is in the first chunk with room behind the first block or, if none is behind it, in the first with room |
| HeapSetup.SetupIsSafe | src/common/heap.smode.c:316-411 | in any interleaving at most one CPU initialises, at most one is in a locked region, a CPU that returned finds its heap set up, and no allocation is lost |
| HeapSetup.EqualArgumentsNeverFail | src/common/heap.smode.c:329-409 | with equal arguments no CPU fails and some CPU can always move, inside the locked region if the lock is taken |
| HeapSetup.MovesTakeTheLock | src/common/heap.smode.c:341-409 | bounces on the lock included, n CPUs make at most 12n(k + 1) moves while the lock is taken k times |
| HeapSetup.LockGoesRound | src/common/heap.smode.c:341-409 | with equal arguments there are runs that take the lock as often as one likes |
| HeapSetup.FailsExactly | src/common/heap.smode.c:329-405 | in every run, past its comparisons a call that saw the heap set up without the lock has failed if and only if its start is not the winner's; one that saw it under the lock, if and only if start or size is not; one that found it not set up, if and only if its range is unusable; before them none has failed |
| HeapSetup.OtherSizeReturns | src/common/heap.smode.c:329-338 | a run from the start in which a late caller with the winner's start and any other size returns |
| HeapSetup.NoLateSetup | src/common/heap.smode.c:343-409 | once set-up has returned to some CPU, no later step of any CPU initialises again |
| SyncWord.TestBit | scripts/generate_diag_sources.py:856-866 | `and` with a one-bit word tests membership in the mask |
| SyncWord.SetBit | scripts/generate_diag_sources.py:868-872 | the atomic or sets exactly the CPU's own bit |
| Barrier.RunKeeps | scripts/generate_diag_sources.py:835-896 | in every run each CPU's bit tells whether it has arrived for the current round |
| BarrierRuns.BarrierIsSafe | scripts/generate_diag_sources.py:835-896 | in any interleaving of any number of rounds no CPU returns from a round that a CPU of the mask has not entered, rounds differ by at most one, and neither consistency check fails |
| BarrierRuns.OutsidersFail | scripts/generate_diag_sources.py:852-866 | a CPU outside the mask fails exactly when it calls |
| BarrierRuns.SomeoneCanMove | scripts/generate_diag_sources.py:876-896 | in every reachable state some CPU of the mask has a step that is not a spin |
| BarrierRuns.RoundsComplete | scripts/generate_diag_sources.py:835-896 | n CPUs make at most n(4k + 3) such steps in k rounds, so rounds complete |
| BarrierRuns.PassableExactlyBelowBit31 | scripts/generate_diag_sources.py:876-884 | some run lets a CPU through if and only if the mask leaves bit 31 clear |
| ContextRoutines.Hart.SaveAllGprs | scripts/generate_diag_sources.py:1189-1197 | stores each saved register at its offset, nothing else |
| ContextRoutines.Hart.RestoreAllGprs | scripts/generate_diag_sources.py:1198-1206 | loads each saved register from its offset |
| ContextRoutines.Hart.MtvecTrapHandler | src/common/jumpstart.mmode.S:399-462 | M-mode entry: mode fields, counter, frame, stack switch and pointer; fails exactly without a frame left, with the mode fields set |
| ContextRoutines.Hart.RestoreContextM | src/common/jumpstart.mmode.S:478-521 | M-mode return |
| ContextRoutines.Hart.StvecTrapHandler | src/common/jumpstart.smode.S:191-241 | S-mode entry |
| ContextRoutines.Hart.RestoreContextS | src/common/jumpstart.smode.S:254-302 | S-mode return |
| ContextRoutines.Hart.VstvecTrapHandler | src/common/jumpstart.vsmode.S:114-157 | VS-mode entry, on the S region |
| ContextRoutines.Hart.RestoreContextVS | src/common/jumpstart.vsmode.S:170-211 | VS-mode return |
| ContextRoutines.Hart.CheckMode | src/common/jumpstart.smode.S:419-426 | sp and s0 move for the two words pushed; the check of the caller's mode passes exactly in that mode and leaves its code in t0 and t1 |
| ContextRoutines.Hart.SwitchToUserStack | src/common/jumpstart.smode.S:452-458 | sp is the bottom of the CPU's user stack; t1 and t2 are left with the stack size and the top of the stacks |
| ContextRoutines.Hart.JumpToFunction | src/common/jumpstart.umode.S:14-30 | the function gets its arguments one register down, whatever t0 was |
| ContextRoutines.Hart.RunFunctionInSmode | src/common/jumpstart.mmode.S:340-382 | fails exactly outside M mode or without a frame; else saves and enters |
| ContextRoutines.Hart.RunFunctionInUmode | src/common/jumpstart.smode.S:418-466 | likewise from S mode, on the user stack |
| ContextRoutines.Hart.RunFunctionInVsmode | src/common/jumpstart.smode.S:75-116 | likewise, with SPV and SPP set |
| ContextRoutines.Hart.RunFunctionInVumode | src/common/jumpstart.vsmode.S:279-331 | likewise from VS mode |
| ContextRoutines.Hart.CompleteSmode | src/common/jumpstart.mmode.S:297-333 | delivers a0 and frees two frames of the M region |
| ContextRoutines.Hart.CompleteUmodeOrVsmode | src/common/jumpstart.smode.S:332-412 | delivers a0 and frees two frames of the S region |
| ContextRoutines.Hart.CompleteVumode | src/common/jumpstart.vsmode.S:236-273 | likewise in VS mode |
| ContextRoutines.SetUpArea | scripts/generate_diag_sources.py:1079-1116 | the bound check passes exactly for the supported CPUs, whose slice of 1320 bytes, five frames, then fits the region |
| ContextRoutines.SlicesAreApart | scripts/generate_diag_sources.py:1223-1239 | the slices of the CPUs fill the region without overlap |
| ContextRuns.EnterMPushes | src/common/jumpstart.mmode.S:399-462 | entering the M handler pushes the interrupted context; a handler of a user-mode trap runs on the stack of the caller into user mode |
| ContextRuns.EnterHSPushes | src/common/jumpstart.smode.S:191-241 | the same for the S handler |
| ContextRuns.EnterVSPushes | src/common/jumpstart.vsmode.S:114-157 | the same for the VS handler |
| ContextRuns.TrapRegisters | src/common/jumpstart.smode.S:191-241 | a handler starts in its own mode with the s registers of the interrupted code and its sp, or after a trap from user mode that of the code which called into it |
| ContextRuns.ReturnMPops | src/common/jumpstart.mmode.S:478-521 | the M return pops the context and is back in its mode |
| ContextRuns.ReturnHSPops | src/common/jumpstart.smode.S:254-302 | the same for the S handler |
| ContextRuns.ReturnVSPops | src/common/jumpstart.vsmode.S:170-211 | the same for the VS handler |
| ContextRuns.CallPushes | src/common/jumpstart.smode.S:418-466 | a cross-mode call pushes the caller's context and starts the function, in the virtual mode that the previous-virtualization bit gives |
| ContextRuns.CompleteMPops | src/common/jumpstart.mmode.S:297-333 | a completed S function, one that runs in S mode, frees its trap's and its caller's frame and hands over a0 |
| ContextRuns.CompleteHSPops | src/common/jumpstart.smode.S:332-412 | the same for U and VS functions |
| ContextRuns.CompleteVSPops | src/common/jumpstart.vsmode.S:236-273 | the same for VU functions |
| ContextRuns.SetEpcKeeps | src/common/jumpstart.smode.S:501-511 | setting the return address changes that word of the innermost frame only; the M-mode setter (src/common/jumpstart.mmode.S:554-564) is the same on the M region |
| ContextRuns.StepRefines | src/common/jumpstart.smode.S:191-466 | each properly nested event fails exactly when it lacks what it needs (a frame, the V bit where VS mode relies on it, for a completion the mode its call names), and otherwise is the stack machine's step |
| ContextRuns.RunRefines | src/common/jumpstart.smode.S:191-466 | the same for every run, calls under a left-over virtual mode included |
| ContextRuns.PointersFollowCounters | src/common/jumpstart.smode.S:201-240 | in every run pointer = region start + (5 - remaining) frames, at most five frames are taken, the mode field is the hardware's mode and the V bit is set only in a virtual mode |
| ContextRuns.ModeFieldsAreTrue | src/common/jumpstart.smode.S:191-302 | in every run whose calls enter the modes they name, the V bit is the hardware's |
| ContextRuns.RunWritesInside | src/common/jumpstart.smode.S:191-466 | no run writes outside the thread's slices of the two regions |
| ContextRuns.MatchingReturnRestores | src/common/jumpstart.smode.S:254-302 | a trap, any nested run and the matching return: registers, mode and both regions are restored, the V bit is the hardware's again, and execution resumes at the last return address set for this trap, or where it stopped |
| ContextRuns.MatchingCompletionRestores | src/common/jumpstart.smode.S:332-412 | a call, any nested run and its completion: the caller's registers but t0 and t1, sp and s0 as moved for the two words pushed, a0 the function's; mode, V bit and both regions are restored |
| ContextRuns.CompletesExactly | src/common/jumpstart.smode.S:304-330 | the completing system call of a function that comes to its end is answered if and only if the previous-virtualization bit the call returned through was clear and a frame is left for it; otherwise it fails |
| ContextRuns.ReturningIsFresh | src/common/jumpstart.smode.S:304-330 | a run in which nothing fails and that ends where it started contains no call under a left-over virtual mode |
| ContextRuns.CallLandsExactly | src/common/jumpstart.smode.S:443-466 | a call enters the mode it names if and only if the previous-virtualization bit it returns through is clear |
| ContextRuns.StaleModeIsReachable | src/common/jumpstart.smode.S:443-466 | runs from set-up in which run_function_in_umode enters VU mode and run_function_in_smode VS mode, with the V bit clear, and their completing system calls fail |
| ContextRuns.UndelegatedUmode | src/common/jumpstart.smode.S:372-409 | with environment calls of VU mode not delegated, run_function_in_umode resumes its caller in the virtual mode that hstatus.SPV gave at the call |
| ContextRuns.UndelegatedSmode | src/common/jumpstart.mmode.S:523-536 | with those of VS mode not delegated, run_function_in_smode resumes its caller in M mode whatever mstatus.MPV was |
| ContextRuns.StaleOnlyInHandlers | src/common/jumpstart.mmode.S:340-382 | in every run that bit is set only while a handler of a trap from VS or VU mode is active |
| ContextStack.FailureRises | src/common/jumpstart.smode.S:175-179 | a fail routine that fails does so in a more privileged mode, so failures come to an end |
| ContextStack.CallRegisters | src/common/jumpstart.umode.S:14-24 | a called function starts at the address in its caller's a0 with a0 to a6 the caller's a1 to a7, ra at the return point, sp 16 below the caller's or, in user mode, at the bottom of its CPU's stack, and the caller's s1 to s11 |
| ContextFailures.InnermostCall | src/common/jumpstart.mmode.S:340-382 | below M mode the innermost frame of the M region is that of a run_function_in_smode |
| ContextFailures.RoutineMemory | src/common/jumpstart.mmode.S:297-333 | a fail routine's system call restores the innermost frame of its region with the status, keeps what is stored below it and does not touch the other region |
| ContextFailures.SmodeFail | scripts/generate_diag_sources.py:917-926 | the fail routine of S mode resumes the caller of the innermost run_function_in_smode with its registers and DIAG_FAILED; the M region is as at that call, the S region as at the failure |
| ContextFailures.SmodeFailEnds | scripts/generate_diag_sources.py:917-926 | with no frame of the M region left it ends the diagnostic |
| ContextFailures.VsmodeFail | src/common/jumpstart.vsmode.S:98-109 | that of VS mode resumes S mode at the return point of run_function_in_vsmode with the registers of the innermost frame of the S region, whoever saved it, and DIAG_FAILED |
| ContextFailures.VsmodeFailFails | src/common/jumpstart.vsmode.S:98-109 | with no frame of the S region left it fails in S mode, the regions unchanged |
| ContextFailures.FailureSettles | src/common/jumpstart.smode.S:191-330 | every event that fails in a properly nested run: in which mode, on which stack, and where its fail routines lead |
| ContextFailures.GoesOnFromM | scripts/generate_diag_sources.py:917-926 | after the fail routine of S mode the thread is in a state of the stack machine again if and only if no frame of the S region was taken since the call |
| ContextFailures.GoesOnFromS | src/common/jumpstart.vsmode.S:98-109 | after that of VS mode, if and only if the frame taken was saved in S mode and no frame of the M region was taken since |
| ContextFailures.DeliversExactly | src/common/jumpstart.smode.S:304-412 | a call whose function comes to its end with a status other than DIAG_FAILED delivers that status if and only if the previous-virtualization bit it returned through was clear and a frame is left for the completing system call |
| ContextFailures.StaleSmode | src/common/jumpstart.mmode.S:340-382 | run_function_in_smode under a left-over virtual mode: its caller gets registers, mode and M region back, with DIAG_FAILED; one frame of the S region, with the function's registers, stays taken, or none if none was left |
| ContextFailures.CompletionTakesTop | src/common/jumpstart.smode.S:332-370 | the completion of run_function_in_vsmode resumes with the registers of whatever frame is innermost in the S region |
| ContextFailures.OrphanIsTaken | src/common/jumpstart.smode.S:332-370 | after that call the enclosing run_function_in_vsmode resumes its caller with the registers of the stale function, one frame short |
| ContextFailures.StaleUmode | src/common/jumpstart.smode.S:418-466 | run_function_in_umode under a left-over virtual mode: S mode goes on at the return point of run_function_in_vsmode on the user function's registers, one frame short; with fewer than three frames left, M mode |
| ContextFailures.StaleSmodeRun | src/common/jumpstart.mmode.S:340-382 | the first of these from set-up, through the return of the handler and the completion of the VS function: four of the five S frames are free |
| ContextFailures.StaleUmodeRun | src/common/jumpstart.smode.S:418-466 | the second from set-up |
| PrintfSpec.DigitsReadBack | src/common/string.smode.c:96-109 | digits read back as the number, without a leading zero |
| PrintfSpec.DigitsFit | src/common/string.smode.c:127-128 | a number below 2^n has at most n digits in any base |
| PrintfSpec.NumberFieldLength | src/common/string.smode.c:366-380 | a numeric field is max(width, prefix + max(precision, digits)) long, or max(width, prefix + digits) if right-justified and zero-padded |
| PrintfSpec.NumberFieldReadsBack | src/common/string.smode.c:360-401 | a numeric field is blanks, sign and base mark, and a number whose value is the argument's |
| PrintfC99.ParseIsProper | src/common/string.smode.c:149-224 | every directive read from a format has a precision only behind a dot |
| PrintfC99.FieldsAgreeExactly | src/common/string.smode.c:360-401 | the numeric field is the one C99 defines if and only if none of the listed departures applies |
| PrintfC99.PlainFieldsAgreeExactly | src/common/string.smode.c:374-380 | without flags # and +: if and only if left-justified, not padded with 0, without precision, or max(width - sign, digits) = max(precision, digits) |
| PrintfC99.ValuesAgreeExactly | src/common/string.smode.c:324-359 | for every length modifier the value is that of the argument in the type C99 names, for hh with a signed conversion if and only if the low byte is below 128 |
| PrintfC99.ConversionsAgreeExactly | src/common/string.smode.c:306-401 | for d, i, o, u, x and X, and for p, r and y under the same rules, the output is C99's if and only if value and field are |
| PrintfC99.ZeroPrecisionExample | src/common/string.smode.c:376-377 | %05.2d of 7, read from the format, gives 00007 where C99 gives three blanks and 07 |
| PrintfC99.CharactersAgreeExactly | src/common/string.smode.c:226-228 | %c writes the low byte of its argument, which is C99's field if and only if the width is at most one |
| PrintfC99.StringsAgreeExactly | src/common/string.smode.c:284-304 | %s padded with blanks is C99's if and only if no negative precision is given or the string is blanks within the width |
| PrintfC99.JustifiedIs | src/common/string.smode.c:374-400 | a field has the text on the side asked for, fill on the other, and the length max(width, text) |
| PrintfC99.StringsAre | src/common/string.smode.c:284-304 | %s writes the string, (null) for a null pointer, up to the precision, filled to the width with blanks or, with flag 0, zeros |
| PrintfC99.DigitCase | src/common/string.smode.c:96-109 | letters among the digits are upper-case for %X and lower-case otherwise |
| PrintfC99.CountsAgreeExactly | src/common/string.smode.c:251-265 | what %n stores is in C99's type if and only if the length modifier is not t |
| PrintfC99.StarsAgreeExactly | src/common/string.smode.c:181-191 | a * is C99's unless its width is negative and the flag - is already set |
| PrintfReading.ParseIs | src/common/string.smode.c:149-282 | a directive ends at the first character that is no flag, digit, dot, star or length modifier, and takes one argument for each star |
| PrintfReading.OnlyNeeded | src/common/string.smode.c:226-359 | the output of a format depends on as many arguments as it needs, one for each star and one for each conversion but %%, and on no others |
| PrintfReading.ArgumentsInOrder | src/common/string.smode.c:149-415 | the output of a format f followed by g is that of f for the arguments f needs, then that of g for those behind them; the same for the stores of %n, which count the output before them |
| PrintfReading.DirectivesInOrder | src/common/string.smode.c:149-415 | in any list of directives that need one argument each, the text of the k-th is that of the k-th argument |
| PrintfGrammar.ReadAsWritten | src/common/string.smode.c:149-282 | every directive of the grammar, of flags, width, precision, length modifier and conversion, is read with exactly those; a negative width from an argument turns the justification round |
| PrintfGrammar.OneDirective | src/common/string.smode.c:149-415 | as a format it needs its stars and one more argument, none for %%, and writes what its conversion renders of that argument |
| PrintfGrammar.NumbersAgreeExactly | src/common/string.smode.c:306-401 | for every directive of the grammar with a numeric conversion and every argument, the output is C99's if and only if value and field are |
| PrintfGrammar.TextsAre | src/common/string.smode.c:178-304 | %% writes a percent sign, %c a character, %s the string's field, and %n nothing, storing the count so far |
| PrintfGrammar.UnknownIsText | src/common/string.smode.c:403-415 | from a directive with an unknown conversion on, everything is text |
| PrintfGrammar.TextIsText | src/common/string.smode.c:141-147 | text without % is written as it is |
| Printf.Ksprintn | src/common/string.smode.c:96-109 | leaves the digits reversed behind a NUL, within 65 bytes for every 64-bit number and base up to 36 |
| Printf.PutNumber | src/common/string.smode.c:360-402 | emits exactly the numeric field of the directive |
| Printf.PutText | src/common/string.smode.c:284-304 | emits exactly the text field: precision cuts, width pads on the side asked for |
| Printf.FetchNumber | src/common/string.smode.c:324-359 | the length modifiers' part of the argument, zero- or sign-extended to 64 bits |
| Printf.ReadNumber | src/common/string.smode.c:213-224 | the decimal number at this place of the format and the index behind it |
| Printf.ReadDirective | src/common/string.smode.c:149-282 | the loop reads the directive that the recursive reading defines, and leaves the same arguments |
| Printf.Convert | src/common/string.smode.c:165-402 | emits exactly what the conversion asks for, consumes its arguments, and for n stores the count so far |
| Printf.StoreCount | src/common/string.smode.c:251-265 | the width of the store by the length modifiers in the order of the code, and the count cut to it |
| Printf.Conversion | src/common/string.smode.c:149-415 | one directive; after an unknown one the rest of the format is plain text |
| Printf.Sink.Put | src/common/string.smode.c:116-123 | stores while two bytes are left, always counts |
| Printf.Vsnprintf | src/common/string.smode.c:114-418 | stores the first min(length, size - 1) characters of the output, then a NUL, nothing else, and returns the untruncated length; with size 0 stores nothing; every %n stores the length of the output before it |

## Left out

- Printf.Vsnprintf: no format that ends inside a directive (the code then reads past its end), and no 32-bit overflow of the count, the width or the precision.
- PrintfGrammar.ReadAsWritten: directives outside the grammar, such as a flag behind the precision, are read as the code reads them, but not described in other terms.
- Printf.Convert: missing arguments, undefined in C, read as zero; the memory that `%n` stores to is not the buffer being written.
- Printf.FetchNumber: the C negation of the most negative 64-bit number overflows; the model takes the wrapped result.
- HeapMemory.HeapInfo.Malloc: the choice among the three heaps and the lock around the body are not modelled; the lock is in HeapSetup.
- HeapMemory.HeapInfo.Memalign: what happens after a misjudged chunk was taken; `HeapMemory.SearchesAgreeExactly` says exactly when one is.
- HeapMemory.HeapInfo.Free: an address that is no payload, where the word that would be its header's size has the top bit set; the code then frees a block that does not exist.
- HeapMemory.HeapInfo.Setup: the translation and memory-type checks on the heap's ends are a parameter; no heap of more than 2^63 bytes, whose one chunk would look used; its ends are multiples of 8.
- HeapSetup.SetupIsSafe: deregistering a heap while other CPUs use it is not part of the race; the chunk list is a counter of allocations.
- BarrierRuns.BarrierIsSafe: weak-memory effects; steps are sequentially consistent.
- ContextRuns.RunRefines: it ends at a failure; how the thread goes on is in `ContextFailures`, and the stack machine follows it exactly when `ContextFailures.GoesOnFromM` or `ContextFailures.GoesOnFromS` says so. gp is not preserved, nested traps overwrite its scratch copy. Interrupts inside a handler's prologue or return path, and calls made from another mode than the one they are for, are not modelled.
- ContextFailures.FailureSettles: the fail routine of VS mode on an empty S region, which takes a frame below it; the fail routines of a system booted through SBI firmware.
- ContextRoutines.Hart.MtvecTrapHandler: the positions of the fields in the status registers are not modelled, only the fields; interrupt-enable bits are left out; so are programs that change the delegation of environment calls, except in `ContextRuns.UndelegatedUmode` and `ContextRuns.UndelegatedSmode`.
- ContextRoutines.Hart.JumpToFunction: the one-time set-up of S and VS mode before the first function.
- ContextRoutines.Hart.RunFunctionInUmode: the two words, ra and s0, that it and the other calls push on the stack of their caller and pop at the return point; the registers they move are modelled.
- ContextRuns.MatchingReturnRestores: returns that do not match.
- Emission.GeneratePageTables: the sorted key list is an argument, and the directives stand for their text.
- Layout.LayOut: which sections are merged, and the text of the script; sections are whole pages, as every mapping is.
- CWalk.TranslationInfo.Translate: the search for the mode's table before it. In bare mode that search fails first (src/common/tablewalk.smode.c:144-160), so the bare branch is not reached.
- Pools.AddPagetableMappings: the quotient is exact; in Python it is a float, exact for starts that are multiples of 4 KiB below 2^64.
- Generation.CheckMemoryMap: the search for a .text section.
- Generation.GenerateStage: the search for a .text section, automatic address assignment, and the addition of mappings other than the tables' own.
- YAML and command-line handling, the build driver, defines, C structs, UART, CSR set-up, the boot path through SBI firmware, delays, random seeds and summary tables: input, output and plumbing.
