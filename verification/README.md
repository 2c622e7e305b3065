# RiESCUE placement, emission and parsing: a verified model

The RiESCUE generator turns a test source into a linked, placed RISC-V program. This project models, in Dafny, the code of it that must get a decision right rather than pass text along: the address block each page mapping reserves, the page tables written as assembler directives, the merging and handing out of PMA regions, the vector register allocator, the bracket-aware directive parsers, the CSR and trigger directives that one pass records and another expands, the layered instruction configurations, the placement of runtime and code pages with the linker script made from it, and the print loop over the `tohost` word. Each has one module in the form of its source - a class whose methods update fields where the source has one, functions where it only computes - and theorems about every input, run or interleaving. Where the code does not keep a property it seems to promise, one lemma gives an input that breaks it and another says for all inputs exactly when it holds.

Verify everything with `dafny verify dfyconfig.toml`.

| module | source | what is proved |
|---|---|---|
| `Wrappers` | | the option type the modules share |
| `Bits` | `riescue/lib/common.py` | the bit operators on unbounded integers, and what masks, shifts and fields mean |
| `Paging` | `riescue/lib/enums.py` | levels tile the address; two addresses share an entry exactly when they share the aligned block of its span |
| `PagePicks` | `generator.py` (pick_pagesize) | which sizes a pick can give, and blocks of addresses |
| `PageAttrs` | `generator.py` (pt_attrs_helper, setup_uwrx_bit, randomize_gstage_pt_attrs) | the value that every level, and every pair of VS and G levels, holds in the end for every attribute |
| `PageSizing` | `generator.py` (randomize_pagesize) | those values for the whole run; every value a reservation takes, in order, is a block and none is smaller than the one before; each overridden entry is covered and owned |
| `PageReservations`, `Widening` | `generator.py` (randomize_pagesize) | how large each reservation comes out, exactly |
| `Canonical` | `generator.py` (canonicalize_lin_addr) | canonical form, and exactly when offsets may be added after it |
| `PageTables` | `page_map.py`, `pool.py` | assembling and loading the emitted directives gives a memory in which a walk reads the tree |
| `PmaScan`, `Pma` | `pma.py` | the merge is sound, and sound again although it changes the stored objects |
| `PmaAlloc` | `generator.py` (PMA) | addresses chosen inside regions; a new region is made exactly when neither the pool nor the batch has one that fits, and slots are conserved |
| `VectorRegs` | `register_manager.py` | groups handed out are aligned, disjoint and complete |
| `Directives` | `parser.py` | the nested parsers undo a printer |
| `CsrAccess` | `pool.py`, `parser.py`, `macros.py` | a CSR id selects one access, for ever |
| `Triggers` | `parser.py`, `assembly_writer.py` | exactly when the two passes agree; what every run leaves in every trigger register, and exactly which files keep triggers paired |
| `ConfigOverride` | `config_parser.py` | the diff-based override refines a precedence rule |
| `Sections` | `generator.py`, `pool.py`, `assembly_writer.py` | pages tile their block; segments keep one load offset |
| `Htif` | `rvmodel_macros_htif.h` | the print protocol under every interleaving |

How things are represented: Python integers are unbounded integers, and a 64-bit word is a number below `Bits.WORD`; bitwise operators are recursion on binary digits, so that an intermediate above 64 bits or a negative complement loses nothing. A `ValueError`, `KeyError`, `AssertionError` or failing index is a `None`, a `raised` flag or a `Failed` state, never a precondition. Random choices are arbitrary values within the stated bounds, so a theorem holds for every seed. The address generator is a contract: it answers any block or none.

## What the code does that its comments do not say

- Naming the largest page size has no effect in Sv48 and Sv57, where its weight is zero (`PagePicks.LargestNeverDrawn`); only in Sv32 and Sv39 can a leaf at the root come out when the largest size is excluded, exactly when the user names it (`PagePicks.LargestPickedIffNamed`).
- The next page size of a 64KB page, and of a size the mode does not have, is the mode's largest, not the one a level up (`Paging.NextPagesizeIsNextLevel`).
- The code section asks for more pages than its alignment covers, so in Sv39 its block can cross into the upper half of the address space, where adding page offsets after canonicalizing goes wrong (`Canonical.CodeBlockCanCrossHalves`).
- With first-stage paging off, a page's own value of u, r, w, x, a or d is lost: the G-stage defaults write 1 over its leaf level, and so that a page given x = 0 stays executable (`PageAttrs.OwnLeafLost`); it keeps the value exactly when a G-stage attribute decides for it (`PageAttrs.OwnLeafKeptIff`).
- A second consolidation can set apart a region named `pma_...` that the first one merged (`PmaScan.HintSplitsOnSecondLook`); two consolidations agree exactly when no hint-named entry was merged and none set apart outgrows its neighbour (`PmaScan.ConsolidateTwice`). An io region already merged fills over a later addition (`PmaScan.LaterEntryIsFilledOver`), exactly when a stored entry of its attributes already reaches over the start of the addition and none starts there (`PmaScan.LaterEntryIsFilledOverIff`).
- Keeping availabilities while the register group shrinks loses free registers (`VectorRegs.ShrinkingLosesRegisters`), exactly when some group free for the new size was not a free group of the old one (`VectorRegs.CompleteIffKeepsAll`).
- A trigger configuration the parser rejects still advances the writer, so every later one is expanded from its neighbour's record (`Triggers.RejectedConfigShifts`); a PMA hint on a single line makes the writer drop the lines after it up to the first with a closing parenthesis (`Triggers.HintSkipsDirective`); enabling a trigger restores the last configuration of its index in the file, not the one that ran (`Triggers.EnableRestoresLaterConfig`), which breaks some run exactly when an enabled index has a last configuration that is on and does not fit the tdata2 that another of its configurations leaves (`Triggers.TriggerSafetyIff`).
- A user value that Python counts as equal to the default - 1 for true, 1.0 for 1 - is not inherited by the instructions of a group (`ConfigOverride.FinalFollowsRule`).
- A code offset moves only the first code page, which then has a segment of its own (`Sections.CodeBlockIsOneSegment`).
- Machine-mode code pages are loaded at their linear address, not at the physical one reserved for them, unless the two agree (`Sections.MachinePagesLoadLinear`); the comment at generator.py line 2480 says they consume no linear space, but both pointers advance.
- Without first-stage paging `modify_pt` raises while it logs (generator.py line 1289 reads the index bits of a disabled mode); without G-stage paging `modify_leaf_pt` and `modify_nonleaf_pt` raise. `PageSizing.PageMapping.RandomizePagesize` says exactly when a run raises.

## Model

| member | source | states |
|---|---|---|
| `Bits.AddressMaskMeaning` | riescue/lib/common.py:92-96 | the mask of a size below 2^64 is 2^64 minus the largest power of two not above the size |
| `Bits.FieldMeaning` | riescue/lib/common.py:49-55 | bits hi..lo of a value are the digits lo..hi as a number |
| `Bits.BitNMeaning` | riescue/lib/common.py:32-36 | bitn reads one binary digit |
| `Bits.MsbBounds` | riescue/lib/common.py:25-29 | msb of a positive number brackets it between two powers of two |
| `Paging.IndexBitsTile` | riescue/lib/enums.py:415-464 | index bits exist exactly for the mode's levels, start at bit 12 and leave no gap between levels |
| `Paging.TableFillsPage` | riescue/lib/enums.py:466-482 | in every mode and at every level the entries an index tells apart fill one 4096-byte page |
| `Paging.PageSizeIsBlock` | riescue/lib/enums.py:338-364 | each page size is a power of two and its mask is 2^64 minus it |
| `Paging.SupportedSizeFitsLevel` | riescue/lib/enums.py:366-386 | a supported size is the span of one entry of its leaf level, or sixteen entries for 64KB |
| `Paging.SupportedIff` | riescue/lib/enums.py:484-509 | a size is supported exactly when it is the span of an entry of some level of the mode, or 64KB with Svnapot in a 64-bit mode |
| `Paging.NextPagesizeIsNextLevel` | riescue/lib/enums.py:511-523 | every mode with paging has a next page size: the span of an entry a level up for a page-table size below the root, the mode's largest size for every other, 64KB included |
| `Paging.SameEntryIffSameBlock` | riescue/lib/enums.py:415-464 | two addresses of a mode agree on every index from a level up exactly when they lie in the same aligned block of that level's span |
| `Paging.ReservedBlockOwnsEntry` | riescue/dtest_framework/generator/generator.py:1280-1308 | a reserved aligned block at least one span long shares its entry with no address outside it |
| `PagePicks.PickPagesize` | riescue/dtest_framework/generator/generator.py:1812-1854 | the pick is 4KB under the 4KB-only flag unless the page is linked, else any positive-weight size among those named, or among the eligible ones if none named has weight; size and mask are one block |
| `PagePicks.NamePicks` | riescue/dtest_framework/generator/generator.py:1812-1854 | each name a user writes ("4kb" or "4kbpage" to "256tb" or "256tbpage") picks its own size where the mode has it and nothing elsewhere, although "64kbpage" also holds "4kb" |
| `PagePicks.FreePickIff` | riescue/dtest_framework/generator/generator.py:1812-1854 | with no size named exactly the sizes of the mode up to 1GB can come out, without the largest one if that is excluded |
| `PagePicks.NamedPickIff` | riescue/dtest_framework/generator/generator.py:1812-1854 | with one size of the mode named, up to 1GB, exactly that size comes out |
| `PageAttrs.HasSignificantConstraints` | riescue/dtest_framework/generator/generator.py:1793-1810 | true exactly when some listed attribute differs from its default |
| `PageAttrs.VsConstraintIff` | riescue/dtest_framework/generator/generator.py:1754-1807 | the VS check finds one exactly when some attribute's non-leaf value is given and, other than for w, x and u, not the usual one |
| `PageAttrs.GStageConstraintIff` | riescue/dtest_framework/generator/generator.py:1754-1810 | the G-stage check exactly when some attribute's G non-leaf value, of a VS leaf or non-leaf, is |
| `PagePicks.LargestPickedIffNamed` | riescue/dtest_framework/generator/generator.py:1812-1854 | with the largest size excluded, a size whose leaf is at the root can come out exactly when the user names it with effect |
| `PagePicks.LargestNeverDrawn` | riescue/lib/enums.py:316-336 | in Sv48 and Sv57 no pick, with the largest size excluded or not, has its leaf at the root |
| `PageAttrs.NoConstraintNoOverride` | riescue/dtest_framework/generator/generator.py:1754-1807 | without a significant VS non-leaf constraint no non-leaf override fires |
| `PageAttrs.OverrideLevelExists` | riescue/dtest_framework/generator/generator.py:1688-1748 | the override level is a level of the mode, and it is leaf + 1 exactly when the leaf is not at the root |
| `PageAttrs.DefaultLevelsMeaning` | riescue/dtest_framework/generator/generator.py:1640-1686 | an attribute's default pass sets its leaf level to the leaf bit and the levels above to 0, and touches nothing else |
| `PageAttrs.OnlyOwnLevels` | riescue/dtest_framework/generator/generator.py:1640-1748 | handling one attribute writes only that attribute's levels, and an override that fires is written at its level with its value |
| `PageAttrs.LevelsAfter` | riescue/dtest_framework/generator/generator.py:1640-1748 | what every level of an attribute holds after its pass: the leaf level the page's own value where that is given and not the usual one, else 1 - or 0 for u in supervisor mode - for u, r, w, x, a, d; the override level the non-leaf value that fired; the other levels above the leaf 0 by default |
| `PagePicks.MeetOfBlocks` | riescue/dtest_framework/generator/generator.py:1300-1308 | the larger size with the and of the masks is again a block, the larger of the two |
| `PageSizing.PageMapping.PtAttrs` | riescue/dtest_framework/generator/generator.py:1640-1752 | one VS attribute: the new attributes and reservation, the values at all its levels as spelled out in `LevelsHold`, and that it raises exactly when an override fires with no level to write |
| `PageSizing.PageMapping.VsPhase` | riescue/dtest_framework/generator/generator.py:1188-1197 | after the ten VS attributes every level of each holds the page's own value, the override or the default (`LevelsHold`); the reservation before the first and after each is the fold of the one-attribute step, each value a block, none smaller than the one before, and each override's entry is covered; it raises exactly when an override is given and the page has no level in the walk |
| `PageSizing.StageStep` | riescue/dtest_framework/generator/generator.py:1426-1614 | one G-stage attribute keeps leaf and table reservations blocks that only grow, within the next page size, and covers its pair of entries |
| `PageSizing.PageMapping.StageAttr` | riescue/dtest_framework/generator/generator.py:1412-1638 | a G-stage attribute that fires is written at its pair of levels, and one that does not changes nothing; the reservations of that one step |
| `PageSizing.PageMapping.SetupStageDefaults` | riescue/dtest_framework/generator/generator.py:1357-1410 | the default of every pair of VS and G levels from the leaves up - 1 at the G leaf, whose size depends on whether the VS level is a leaf, and 0 above it - with first-stage paging off a 1 at the page's own leaf level, and nothing else |
| `PageAttrs.OwnLeafKeptIff` | riescue/dtest_framework/generator/generator.py:1357-1410 | with first-stage paging off a page keeps its own unusual leaf value of u, r, w, x, a or d exactly when a leaf G-stage attribute repeats it, or only a non-leaf one is given, or it is 1 |
| `PageAttrs.OwnLeafLost` | riescue/dtest_framework/generator/generator.py:1382-1410 | a page given x = 0 and nothing else ends with x = 1 at its leaf there |
| `PageSizing.PageMapping.GPhase` | riescue/dtest_framework/generator/generator.py:1199-1278 | what every pair of VS and G levels holds after the 40 G-stage attributes; both reservations before the first and after each are the fold of the one-attribute step: blocks that never shrink, within the next page size, covering every attribute that fires; it raises exactly when a G non-leaf attribute of the VS leaf is given and the G leaf has no level in the G walk |
| `PageSizing.PageMapping.ModifyBlocks` | riescue/dtest_framework/generator/generator.py:1280-1308 | the reservation after each override: modify_pt makes it a root entry's span, modify_nonleaf_pt at least the span of the entry above the leaf; exactly when each raises |
| `PageSizing.PageMapping.Record` | riescue/dtest_framework/generator/generator.py:1310-1348 | what is stored: the page size, the widened linear block, the physical block and the G-stage blocks |
| `PageSizing.PageMapping.RandomizePagesize` | riescue/dtest_framework/generator/generator.py:1073-1355 | the page size and, where used, both G-stage sizes are picks from their own lists and modes, and for the sizes picked exactly when the run raises; every level and pair of levels of every attribute holds the value the page, the override or the default gives; every value each reservation takes is a power of two with its mask, none smaller than the one before; the result covers every overridden and modified entry; which physical block each modify flag gives |
| `PageSizing.WidenedIsLarger` | riescue/dtest_framework/generator/generator.py:1350-1355 | the larger size with the smaller mask of two blocks is the larger block |
| `PageReservations.VsSizeIs` | riescue/dtest_framework/generator/generator.py:1640-1752 | the VS attributes widen a reservation exactly when one is overridden above the leaf, to the span of an entry there |
| `PageReservations.StageSizesAre` | riescue/dtest_framework/generator/generator.py:1412-1638 | with first-stage paging the 40 G-stage attributes widen the leaf reservation exactly for VS non-leaf attributes, to the span of the VS entry above the leaf, and for G non-leaf ones of the VS leaf, to that of the G entry; the table's exactly for G non-leaf ones of VS non-leaves |
| `PageReservations.BareSizesAre` | riescue/dtest_framework/generator/generator.py:1412-1470 | without it exactly for VS non-leaf attributes of which the page has no own value |
| `PageReservations.AddressSizeIs` | riescue/dtest_framework/generator/generator.py:1073-1348 | the linear reservation ends at exactly the largest of the page, the overridden entry, the modified entries and the G-stage leaf, so nothing is reserved without need |
| `PageReservations.GStageSizesAre` | riescue/dtest_framework/generator/generator.py:1199-1348 | and both G-stage reservations at exactly their pages or the entries asked for, or the next page size under modify_nonleaf_pt |
| `PageSizing.PlacedPageOwnsEntry` | riescue/dtest_framework/generator/generator.py:1280-1308 | a page placed at an address its mask leaves unchanged shares no entry, of any level whose span fits the block, with an address outside |
| `Canonical.CanonIsCanonical` | riescue/dtest_framework/generator/generator.py:876-890 | the low w bits are kept, and the result is canonical exactly when the address fits in w bits or has bit w-1 set |
| `Canonical.CanonIdempotent` | riescue/dtest_framework/generator/generator.py:876-890 | canonicalizing twice is canonicalizing once |
| `Canonical.CanonicalizeKeepsIndices` | riescue/dtest_framework/generator/generator.py:876-890 | an address and its canonical form are walked through the same indices |
| `Canonical.CanonicalizeMovesUpperHalf` | riescue/dtest_framework/generator/generator.py:876-890 | for each paging mode the lower half of the linear space stays, the upper half moves to the top of the 64-bit word, and without paging nothing moves |
| `Canonical.CanonicalizeIsCanonicalIff` | riescue/dtest_framework/generator/generator.py:876-890 | any 64-bit address comes out within half a linear space of one end of the word exactly when it lies in the linear space or has the mode's topmost bit set |
| `Canonical.CommutesIffOneHalf` | riescue/dtest_framework/generator/generator.py:2373-2398 | offsets over a block may be added after canonicalizing exactly when the block does not cross the middle of the address space |
| `Canonical.CanonicalizeCommutesIff` | riescue/dtest_framework/generator/generator.py:2373-2398 | for each paging mode, page offsets over a block may be added after canonicalizing exactly when the block does not cross the middle of the linear space |
| `Canonical.AlignedBlockCommutes` | riescue/dtest_framework/generator/generator.py:2100-2116 | they may for every aligned power-of-two block of at most half the address space |
| `Canonical.CodeBlockCanCrossHalves` | riescue/dtest_framework/generator/generator.py:2350-2373 | a 514-page block with the alignment its size gives where they may not |
| `PageTables.PageMap.PrintTableEntries` | riescue/dtest_framework/lib/page_map.py:682-711 | the directives of one table - for an entry of index i `.org` 4i and `.4byte` in Sv32, 8i and `.8byte` otherwise - and the section it registers |
| `PageTables.PageMap.GenerateHierarchy` | riescue/dtest_framework/lib/page_map.py:661-680 | the directives of the whole tree and exactly the sections of its non-leaf tables |
| `PageTables.AssembleOkIff` | riescue/dtest_framework/lib/page_map.py:700-711 | the assembler accepts directives exactly when every `.org` moves forwards |
| `PageTables.AssembleEntries` | riescue/dtest_framework/lib/page_map.py:700-711 | assembling entries in index order never moves `.org` backwards and packs each into its slot |
| `PageTables.PackedSlots` | riescue/dtest_framework/lib/page_map.py:700-707 | the slot of each entry holds its bytes, every other slot zeros |
| `PageTables.LittleRoundTrip` | riescue/dtest_framework/lib/page_map.py:708-708 | a value of n bytes is read back from its little-endian bytes |
| `PageTables.EmissionPreservesMeaning` | riescue/dtest_framework/lib/page_map.py:661-711 | for any tree with distinct bases and indices in range the assembled sections are those of its non-leaf tables, each holding every entry's value - whole, if it fits the 4 or 8 bytes of the mode - in its slot and zeros elsewhere, and each registered at its table's base |
| `PageTables.LoadedTablesReadBack` | riescue/dtest_framework/lib/page_map.py:661-711 | with every section loaded at the address it is registered under, the 4 bytes at base + 4 index in Sv32, the 8 bytes at base + 8 index otherwise, read back as the entry's whole value for every entry of every reachable table if it fits them, and no byte but zeros stands at an index without one |
| `PageTables.TablesDisjoint` | riescue/dtest_framework/lib/page_map.py:661-680 | tables at distinct page-aligned bases occupy disjoint memory |
| `PmaScan.ConsolidateSound` | riescue/dtest_framework/lib/pma.py:155-182 | the regions are sorted, every entry lies wholly inside one of equal attributes, and outside io they cover exactly what the entries cover |
| `PmaScan.ConsolidateFillsNoStart` | riescue/dtest_framework/lib/pma.py:175-180 | an io merge never fills over the start of an entry with other attributes |
| `PmaScan.ConsolidateStored` | riescue/dtest_framework/lib/pma.py:155-182 | what the merge leaves stored: the entries in order, only sizes changed, only upwards, covering the same outside io |
| `PmaScan.ConsolidateTwice` | riescue/dtest_framework/lib/pma.py:155-182 | a second consolidation returns the same regions exactly when no hint-named entry was merged and none set apart grew out of its neighbour |
| `PmaScan.ConsolidateTwiceWithoutHints` | riescue/dtest_framework/lib/pma.py:167-173 | in particular whenever no name starts with `pma_` |
| `PmaScan.HintSplitsOnSecondLook` | riescue/dtest_framework/lib/pma.py:167-173 | two entries that are one region at first and two regions the second time |
| `PmaScan.LaterEntryIsFilledOver` | riescue/dtest_framework/lib/pma.py:177-179 | an entry added between two merged io entries starts inside the io region |
| `PmaScan.LaterEntryIsFilledOverIff` | riescue/dtest_framework/lib/pma.py:155-182 | after a lookup, an addition has its start reached over by a region of other attributes exactly when a stored entry of them already reaches over it and none starts there |
| `Pma.PmaRegion.AddEntry` | riescue/dtest_framework/lib/pma.py:152-153 | the entry is appended and remembered as added; the other operations take the list exactly when the object was not stored before |
| `Pma.PmaRegion.SortByAddress` | riescue/dtest_framework/lib/pma.py:161-161 | the stored list becomes its stable sort, with the same objects |
| `Pma.PmaRegion.MergeSorted` | riescue/dtest_framework/lib/pma.py:162-182 | the loop that grows the objects themselves computes the scan, and leaves stored what the scan says |
| `Pma.PmaRegion.ConsolidatedEntries` | riescue/dtest_framework/lib/pma.py:155-182 | returned and stored values are those of the scan; every addition ever made stays covered; raises exactly on an empty list |
| `Pma.PmaRegion.FindRegionForAddress` | riescue/dtest_framework/lib/pma.py:184-194 | over any run of additions and lookups a region is found for every address of an added entry, and without io entries for no other address; of several it is the first in address order |
| `PmaAlloc.RecoveryExpression` | riescue/dtest_framework/generator/generator.py:449-453 | the recovery gives back a base below the alignment, and otherwise an address beyond 2^64 |
| `PmaAlloc.GenerateAddressInPmaRegion` | riescue/dtest_framework/generator/generator.py:422-457 | an address returned has its block inside the region, and is aligned whenever the base is aligned or at least the alignment; it is the draw rounded down, the base where that falls below it and the base is below the alignment, and none otherwise |
| `PmaAlloc.FindMatchingRegion` | riescue/dtest_framework/generator/generator.py:394-420 | the first region of the consolidated pool with equal attributes and room; none exactly when no region has both |
| `PmaAlloc.AllocateOne` | riescue/dtest_framework/generator/generator.py:300-375 | a region is made exactly when neither the consolidated pool nor the batch has one with the attributes asked for and at least the size; the first one of the pool is handed out if there is one, else that of the batch |
| `PmaAlloc.PreAllocate` | riescue/dtest_framework/generator/generator.py:263-392 | every address gets what `PlanTo` plans for it: a region of the pool, one made in the batch, or nothing; new regions never pass the limit, slots used are regions made, nothing is made when the pool meets every request, and everyone given a region got one meeting its request |
| `PmaAlloc.PlanMeaning` | riescue/dtest_framework/generator/generator.py:300-375 | for any requests, what the plan means: nobody is passed over while slots last; then an address is served by the pool exactly when the pool, as consolidated so far, meets it, and gets a new region exactly when neither it nor a region made before with its attributes does |
| `PmaAlloc.StaysMet` | riescue/dtest_framework/generator/generator.py:394-420 | a request that the consolidated pool meets is met after any number of further consolidations |
| `VectorRegs.CompleteIffKeepsAll` | riescue/compliance/lib/register_manager.py:89-112 | for both flags and every pair of group sizes, every aligned free group is available afterwards exactly when each was free before at the old size, was reserved and is given back, or the old availabilities are discarded |
| `VectorRegs.GroupHoldsOperandIff` | riescue/compliance/lib/register_manager.py:89-112 | whatever the register width, n registers hold an operand of LMUL 1/8 to 8 exactly when n is at least the group size used |
| `VectorRegs.GrowingKeepsAll` | riescue/compliance/lib/register_manager.py:89-112 | which is so whenever the group size does not shrink and the reservations stay |
| `VectorRegs.ShrinkingLosesRegisters` | riescue/compliance/lib/register_manager.py:89-112 | going from single registers to pairs and back leaves v1 free and unavailable |
| `VectorRegs.TakeFirst` | riescue/compliance/lib/register_manager.py:158-173 | reserving the first available group leaves the others free and loses no free group |
| `VectorRegs.HoldGroup` | riescue/compliance/lib/register_manager.py:152-156 | handing out one more free group keeps all groups handed out aligned and pairwise disjoint |
| `VectorRegs.CheckForOverlap` | riescue/compliance/lib/register_manager.py:73-87 | exactly the listed registers whose group touches no reserved one |
| `VectorRegs.StillAvailable` | riescue/compliance/lib/register_manager.py:96-112 | exactly the aligned registers whose group is free, and were available if that is kept |
| `VectorRegs.Shuffle` | riescue/compliance/lib/register_manager.py:112-112 | a shuffle keeps the registers and makes no duplicates |
| `VectorRegs.RegisterManager.ReinitVregs` | riescue/compliance/lib/register_manager.py:68-71 | every register is available again and none is held |
| `VectorRegs.RegisterManager.RandomizeRegs` | riescue/compliance/lib/register_manager.py:89-112 | the new availability as a set, for every LMUL and both flags, and exactly when it is complete |
| `VectorRegs.RegisterManager.GetRandomReg` | riescue/compliance/lib/register_manager.py:217-223 | the first available group is handed out and reserved; nothing is exactly when no aligned free group exists, if complete |
| `VectorRegs.RegisterManager.ReserveOverlapRegs` | riescue/compliance/lib/register_manager.py:152-156 | the whole group is appended to the reservations |
| `Directives.StripPadded` | riescue/dtest_framework/parser.py:1176-1176 | blanks around a text do not change what strip leaves |
| `Directives.LevelMeaning` | riescue/dtest_framework/parser.py:1182-1223 | a character is quoted after an odd number of quotes, in the argument parser only, and as deep as more of the parser's brackets opened than closed |
| `Directives.CutUndoesJoinIff` | riescue/dtest_framework/parser.py:1182-1223 | cutting a text at top-level separators undoes joining pieces exactly when no piece has one and each but the last closes its brackets and quotes |
| `Directives.SplitSound` | riescue/dtest_framework/parser.py:1182-1223 | the cut pieces joined are the text, and are such pieces |
| `Directives.ParseDirectiveArgs` | riescue/dtest_framework/parser.py:1170-1229 | the dictionary: one assignment for each top-level piece by its last `=`, later ones winning, empty keys dropped |
| `Directives.QuotedValueStays` | riescue/dtest_framework/parser.py:1170-1229 | commas, equals signs and brackets between quotes stay inside their value |
| `Directives.ParseList` | riescue/dtest_framework/parser.py:1231-1263 | the stripped top-level items, without an empty last one; a text without brackets is one item |
| `Directives.ParseCombinations` | riescue/dtest_framework/parser.py:1265-1299 | the dictionaries of the texts closed at brace depth zero, without empty ones |
| `Directives.ParseComboDict` | riescue/dtest_framework/parser.py:1301-1341 | each top-level pair cut at its first `=`, later ones winning |
| `Directives.TopItems` | riescue/dtest_framework/parser.py:1242-1263 | the item loop computes the stripped pieces, whatever the nesting |
| `Directives.ListMeaning` | riescue/dtest_framework/parser.py:1231-1263 | a list in any layout means its items |
| `Directives.ListRoundTripIff` | riescue/dtest_framework/parser.py:1231-1263 | a printed list is read back exactly when its last item is not empty |
| `Directives.ComboRoundTrip` | riescue/dtest_framework/parser.py:1301-1341 | a printed combination is read back |
| `Directives.CombosRoundTripIff` | riescue/dtest_framework/parser.py:1265-1299 | printed combinations are all read back exactly when none is empty |
| `Directives.HintRoundTrip` | riescue/dtest_framework/parser.py:1022-1065 | any well-formed hint printed and parsed gives its keys, and each value's parser its value |
| `CsrAccess.Pool.AddParsedCsrAccess` | riescue/dtest_framework/pool.py:254-273 | the first access offered under a key is stored, with its field, flag and id and the field in its operation, and nothing is replaced; a subfield operation without a field raises |
| `CsrAccess.Pool.GetParsedCsrAccess` | riescue/dtest_framework/pool.py:278-284 | a lookup with a directive's own values gives the first access offered under its key |
| `CsrAccess.Pool.GetNextCsrId` | riescue/dtest_framework/pool.py:286-291 | an id above every stored one, by one |
| `CsrAccess.Parser.ParseCsrRw` | riescue/dtest_framework/parser.py:1007-1020 | the access is offered with a fresh id and can be looked up afterwards; stored ids stay distinct and below the counter |
| `CsrAccess.Parser.TriggerCsrIds` | riescue/dtest_framework/parser.py:1106-1127 | the ids recorded are those stored for the forced writes of the trigger registers |
| `CsrAccess.OfferKeepsDistinctIff` | riescue/dtest_framework/pool.py:254-273 | with distinct stored ids, an offer keeps them distinct exactly when its key is taken or its id is not in use |
| `CsrAccess.CsrEcallAccess` | riescue/dtest_framework/runtime/macros.py:489-497 | the macros' offer with the pool's next id finds the access stored for the operation, keeps every earlier one and keeps ids distinct |
| `CsrAccess.FirstIsForEver` | riescue/dtest_framework/pool.py:268-273 | what is stored under a key is the same after any later offers |
| `CsrAccess.KeysTellApart` | riescue/dtest_framework/pool.py:257-267 | keys of known operations are equal only for the same operation, force flag and field, unless a field ends in the force suffix |
| `Triggers.Parse` | riescue/dtest_framework/parser.py:62-141 | the parser's lists and counter after the file, or its failure |
| `Triggers.FailsIff` | riescue/dtest_framework/parser.py:62-141 | parsing fails exactly at a line outside debug bodies that has a bad value, is a malformed debug test, or a second one |
| `Triggers.Expand` | riescue/dtest_framework/generator/assembly_writer.py:228-395 | the writes emitted for each line, from the record the writer's counters select |
| `Triggers.SwallowsIff` | riescue/dtest_framework/parser.py:66-80 | a line is stored unread exactly when a debug test precedes it with neither a directive nor a section between |
| `Triggers.InHintIff` | riescue/dtest_framework/generator/assembly_writer.py:232-243 | the writer skips exactly after a hint line with no closing line between |
| `Triggers.OwnRecordIff` | riescue/dtest_framework/generator/assembly_writer.py:287-395 | a directive is expanded from its own record exactly when it is accepted and reached and as many were reached as recorded before it |
| `Triggers.CleanUsesOwn` | riescue/dtest_framework/parser.py:1074-1168 | so it is in every file without rejected directives, hints or directives in debug bodies |
| `Triggers.RejectedConfigShifts` | riescue/dtest_framework/generator/assembly_writer.py:289-335 | a rejected configuration expanded as the next one, which is not expanded at all |
| `Triggers.HintSkipsDirective` | riescue/dtest_framework/generator/assembly_writer.py:236-243 | an accepted directive after a one-line hint emits nothing |
| `Triggers.LineStep` | riescue/dtest_framework/generator/assembly_writer.py:287-395 | the code of one line keeps the registers paired in every state between its writes, if its enable fits, and leaves every trigger with the tdata2 of a configuration |
| `Triggers.LineRegisters` | riescue/dtest_framework/generator/assembly_writer.py:287-395 | in a clean file, from any state of the hart, the code of a configuration leaves its own tdata1 and its own tdata2 where used, that of a disable tdata1 0, that of an enable the tdata1 of the last configuration of the index in the file, and every other register of every trigger as it was |
| `Triggers.RunRegisters` | riescue/dtest_framework/generator/assembly_writer.py:287-395 | so both registers of every trigger at every point of every run of a clean file, from any state |
| `Triggers.TriggerSafetyIff` | riescue/dtest_framework/generator/assembly_writer.py:287-395 | for a clean file and a hart with all triggers off: every run that enables after configuring keeps each nonzero tdata1 with the tdata2 of the same configuration, in every state between two writes, exactly when for every index enabled the last configuration in the file is off or fits what each configuration of the index leaves |
| `Triggers.MisfitBreaks` | riescue/dtest_framework/generator/assembly_writer.py:358-395 | and if one does not fit, the two-line run that configures and enables breaks the pairing |
| `Triggers.TriggerSafety` | riescue/dtest_framework/generator/assembly_writer.py:287-395 | so files that configure each index once are safe |
| `Triggers.EnableRestoresLaterConfig` | riescue/dtest_framework/generator/assembly_writer.py:358-395 | a three-line file, accepted by the parser, whose first two lines run break the pairing: the index is configured again after the enable |
| `ConfigOverride.FinalFollowsRule` | riescue/compliance/lib/config_parser.py:115-182 | user instruction value, else a user group value not equal to the default, else default instruction over group over extension; an entry of the user's file gives what is under its "configs", and only without one its own keys |
| `ConfigOverride.OnlyConfigsCount` | riescue/compliance/lib/config_parser.py:129-191 | where an entry of the user's file has "configs" nothing beside it has any effect, and where it has none the entry itself counts as its "configs" |
| `ConfigOverride.OverriddenIsFinal` | riescue/compliance/lib/config_parser.py:96-191 | parsing and overriding in place gives every instruction that layer |
| `ConfigOverride.OverriddenLayers` | riescue/compliance/lib/config_parser.py:129-191 | the layers kept for each extension and group: the user's group entry over the user's extension entry over the defaults |
| `ConfigOverride.EmptyUserChangesNothing` | riescue/compliance/lib/config_parser.py:115-191 | an empty user file leaves the parsed tree as it is |
| `ConfigOverride.SameIffNormal` | riescue/compliance/lib/config_parser.py:154-165 | two JSON values are equal in Python exactly when they are the same after writing truth values and integers as floats, all the way down |
| `ConfigOverride.ExtractionKeepsAllIff` | riescue/compliance/lib/config_parser.py:193-202 | extraction keeps as many entries as instructions exactly when their names are distinct |
| `ConfigOverride.DisjointIffDistinct` | riescue/compliance/lib/config_parser.py:82-92 | the pairwise disjointness check holds exactly when no name occurs twice in the tree |
| `ConfigOverride.ConfigParser.Inherit` | riescue/compliance/lib/config_parser.py:154-165 | exactly the entries that are new or not equal to the old ones, by Python's equality of JSON values |
| `ConfigOverride.ConfigParser.OverrideGroup` | riescue/compliance/lib/config_parser.py:129-182 | the new layers of a group and its instructions; it fails exactly on an invalid name |
| `ConfigOverride.ConfigParser.ParseDefaultConfig` | riescue/compliance/lib/config_parser.py:96-113 | the tree with every layer merged downwards; it fails exactly on an invalid name |
| `ConfigOverride.ConfigParser.ExtractInstrConfigs` | riescue/compliance/lib/config_parser.py:193-202 | the last configuration of each name in visiting order |
| `ConfigOverride.ConfigParser.ValidateGroupsContentsDisjoint` | riescue/compliance/lib/config_parser.py:69-78 | accepts exactly lists without duplicates that share no name |
| `ConfigOverride.ConfigParser.ValidateDefaultConfigGroupsContentsDisjoint` | riescue/compliance/lib/config_parser.py:82-92 | accepts exactly pairwise disjoint groups |
| `ConfigOverride.ConfigParser.Configure` | riescue/compliance/lib/config_parser.py:13-55 | if it succeeds, every instruction has its own configuration and every entry of it, and of the group and extension layers, follows the rule; when it succeeds |
| `Sections.Generator.AddSectionHandler` | riescue/dtest_framework/generator/generator.py:2739-3018 | the pair of addresses settled on for every combination of arguments and paging modes, linear from the linear answer and physical from the physical one; the section is linked at the linear address and loaded at the physical one, or the linear one without page-table entries |
| `Sections.Generator.PlacePages` | riescue/dtest_framework/generator/generator.py:2376-2515 | a loop of pages tiles on from where it starts, in both address spaces |
| `Sections.Generator.PlaceRuntime` | riescue/dtest_framework/generator/generator.py:2242-2334 | the runtime pages tile from the reset address with VA equal to PA, and where they end |
| `Sections.Generator.PlaceCode` | riescue/dtest_framework/generator/generator.py:2336-2515 | in every mode page j stands j pages above the block's start in both spaces, the size asked for, where the block starts in both spaces, and exactly when it cannot be placed |
| `Sections.OffsetIsConstant` | riescue/dtest_framework/generator/generator.py:2373-2515 | VA - PA is the same for all pages of a block |
| `Sections.SectionAddresses` | riescue/dtest_framework/pool.py:473-492 | section j of a block is linked at VA0 + 4096 j and loaded at PA0 + 4096 j, or at its linear address for the kinds without page-table entries |
| `Sections.FillsBlockIff` | riescue/dtest_framework/generator/generator.py:2341-2371 | for any counts, exactly when the pages placed fill the block asked for, with one to spare in wysiwyg mode |
| `Sections.CodeFillsItsBlock` | riescue/dtest_framework/generator/generator.py:2219-2240 | they do for the counts used |
| `Sections.CodeNamesDistinct` | riescue/dtest_framework/generator/generator.py:2376-2515 | no section of the branch replaces another |
| `Sections.MachinePagesLoadLinear` | riescue/dtest_framework/pool.py:473-492 | a machine-mode page is loaded at its linear address, at its own physical one exactly when the block starts are equal |
| `Sections.LinkerEntries` | riescue/dtest_framework/generator/assembly_writer.py:1105-1120 | each section's addresses with the code offset and bit 55 cleared |
| `Sections.ClearBitValue` | riescue/dtest_framework/generator/assembly_writer.py:1116-1118 | clearing takes exactly that bit off |
| `Sections.NumberSegments` | riescue/dtest_framework/generator/assembly_writer.py:1126-1141 | the segment of each section and their count |
| `Sections.SameSegmentIff` | riescue/dtest_framework/generator/assembly_writer.py:1122-1141 | two sections share a segment exactly when every consecutive pair between them is one page apart in both addresses |
| `Sections.BumpKeepsDistance` | riescue/dtest_framework/generator/assembly_writer.py:1152-1167 | the distance from VMA to load address is one per segment and survives any bump of the VMA |
| `Sections.CodeBlockIsOneSegment` | riescue/dtest_framework/generator/assembly_writer.py:1122-1141 | the pages of a code block registered at their own addresses share a segment, except that a nonzero code offset takes the first page out of it |
| `Htif.Invariant` | riescue/dtest_framework/lib/rvmodel_macros_htif.h:15-28 | after every step of every interleaving the output is what was pending and then a prefix of the string, and the registers hold what the loop needs |
| `Htif.PrintProtocol` | riescue/dtest_framework/lib/rvmodel_macros_htif.h:15-28 | no word is overwritten before the host took it, on exit the whole string has been written exactly once, and an idle host has printed it, character for character, after what was pending |
| `Htif.OrIsCommand` | riescue/dtest_framework/lib/rvmodel_macros_htif.h:19-20 | or-ing a byte into the command word adds it |
| `Htif.CanFinish` | riescue/dtest_framework/lib/rvmodel_macros_htif.h:15-28 | from every reachable state some schedule of the two lets the hart exit |

## Left out

- Files, processes, simulators, logging, the command line and containers: they move data and take no decision the model could state.
- The address generator, the page-table builder, PMP, the sdtrig word builders and the other runtime modules: the model takes their results as parameters. Reservations made in the address generator are not tracked.
- Directive patterns (regular expressions) and the integer and boolean fields of directives: whether a pattern matches is an input of `Triggers`, and `Directives` starts at the argument text. `parse_csr_rw`'s cutting of its line, the writer's own reading of that line and label texts are not modelled.
- `set_bits` and `generate_pma_value`: the loader and the page-table builder make register and entry words with them, which the model takes as numbers. Comments in the emitted assembly and the page debug comments do not reach memory.
- PageSizing: an attribute name is a value of a datatype, not a string.
- Pma.PmaRegion.ConsolidatedEntries: it takes lists in which no object stands twice; an object added a second time would be merged with itself. Base, name and attributes never change after construction, so the late assignment of `pma_address` to a region handed out is not modelled.
- PmaAlloc.PreAllocate: it starts from the addresses that ask for a region; selecting them, and turning parsed hints into regions (generator.py lines 236-262), is left out.
- VectorRegs.RegisterManager: `reserve_reg` and `unreserve_reg` reserve single registers without grouping and can duplicate reservations, so runs with them are not modelled; integer and floating-point registers have no grouping.
- Triggers.TriggerSafetyIff: the sections the writer inserts between header and test text hold no trigger directive or hint, and every trigger index exists on the hart and keeps the values written.
- CsrAccess.OfferKeepsDistinctIff: the parser is done before the macros offer; an offer of the parser after one of the macros could meet its id in use.
- ConfigOverride.ConfigParser.Inherit: the literals NaN and Infinity, which Python's JSON reader also accepts, are not values of the model.
- ConfigOverride.ConfigParser.Configure: the "test" entry of the two files and the floating-point configuration are passed through unread.
- Sections.Generator.AddSectionHandler: page attributes, aliases and sections named by a hexadecimal address are left out; the address generator's linear answer is taken already canonical.
- Sections: of handle_sections the runtime and code branches are modelled; the data, io, interrupt controller, debug ROM and selfcheck branches, whose page loops repeat that step from starts of their own, are not.
- Htif.PrintProtocol: one hart; several harts printing at once are not covered by the macro either.
- APLIC and IMSIC text, jump-table text, CSR manager lookups, feature and march strings: templates and table lookups.
- Candidate, memory range partitioning, DRAM splitting and enumeration conversions: none of the modelled code uses them. Of random choices only their range and zero weights are modelled, not their distribution.
