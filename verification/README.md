# LLILC: verified models of its algorithms

LLILC is an LLVM-based just-in-time compiler for CoreCLR. This project models the parts of it that are
algorithms rather than glue, and proves what they are for.

* **GC tables.** Stack maps list every live slot at each safepoint; CoreCLR's tables want births and
  deaths. `GcLiveness` defines the translation and a reader on values, `GcSlots` the slot table,
  `GcInfoEmission` the emitter class that updates its maps, counters and bit sets in place, and
  `GcTypes` the search for GC pointers in structs.
* **Containers of the GC-info encoder.** `QuickSort`, `SList`, `StructArrayList`, `IntegerFit`.
* **Unwind information and read-only data.** `UnwindInfo`, `DataSections`.
* **Method patterns.** `MethodPatterns` (scanner, parser, matcher) and `MethodSetInit` (publication by
  compare-and-swap as a state machine).
* **Argument registers.** `SysVAbi`, against section 3.2.3 of the System V AMD64 psABI.
* **Debug map.** `DebugOffsets`.
* **Exception regions.** `EHClauses` (the rules by which clauses nest, and the sort), `EHRegions` (the tree
  built from them) and `RegionWalk` (the walk along the code that knows the innermost region).

`Multiples` holds the arithmetic facts the others share, `Options` an option type. `dafny verify
dfyconfig.toml` checks everything.

Conventions: assertions in the program are preconditions; calls to the execution engine and to the
GC-info encoder are entries of sequences in call order; blocks the execution engine hands out, class
descriptors and decoded signatures are parameters. Data structures the program walks by pointer are
walked here by index or by object, and a ghost parameter names the value that the bytes being walked
encode.

## Where the code does not do what it seems to promise

Each of these is proved, by a lemma or a method's contract, with the exact condition under which the code is
right.

* The comment at `lib/GcInfo/GcInfo.cpp:539` allows untracked slots to be allocated before tracked ones.
  The live bit sets start at 25 bits and double at most once per new slot, so every run stays inside them
  if and only if at most 25 slots came first (`GcLiveness.BitsInRangeExactly`).
* `getGcPointers` finds exactly the GC-pointer leaves if and only if they are pointer-aligned and no
  pointer-aligned offset lies in padding directly after one (`GcTypes.WalkFindsLeavesExactly`, with
  `GcTypes.PaddingIsReportedAsPointer`).
* `isGcAggregate` looks at array and vector elements, `getGcPointers` does not, so the assertion in
  `encodeGcAggregate` fails exactly for structs whose only GC pointers sit in arrays or vectors
  (`GcTypes.AggregateHasPointers`, `GcSlots.AggregateAssertionHolds`, `GcTypes.ArrayOfPointersIsMissed`).
* Subtracting the call size from a safepoint offset wraps below 2; call sites stay ordered exactly when it
  wraps nowhere or everywhere (`GcLiveness.CallSitesOrderedExactly`, with
  `GcLiveness.WrappedCallSiteIsOutOfOrder`). Such an input is hypothetical: the return address of a two-byte
  call is at least 2.
* The header of `MethodID::parse` gives an example that ends in a blank. Blanks after the last pattern
  make `scan` take a substring from `npos`, which throws (`MethodPatterns.DocumentedExampleThrows`); no string
  that does not end in a blank throws (`MethodPatterns.ThrowsOnlyOnTrailingBlank`). A tab is skipped before a
  token but does not end one, so it becomes part of a name (`MethodPatterns.TabIsPartOfName`). A printed list
  is read back if and only if nothing follows it and every gap but the first starts with a space or follows an
  argument count (`MethodPatterns.PrintParseRoundTrip`).
* A thread that loses the race in `MethodSet::init` may return before the winner has stored its list
  (`MethodSetInit.ReturnFindsListExactly`, `MethodSetInit.LoserMayReturnTooEarly`).
* `SList::InsertTail` does not check what `SLink::InsertAfter` does: the list stays a list exactly when the
  inserted link is detached and is not the tail itself, whose next link is null too
  (`SList.SList.InsertTail`).
* The reader of the unwind section takes end offsets as they come: the code ranges it reports are in order
  exactly when the end offsets ascend (`UnwindInfo.AllocationsTile`).
* The iterator of `StructArrayList` recomputes capacities without the limit used at creation; they agree
  exactly while no chunk has hit it (`StructArrayList.CapacitiesAgree`).
* The sort of exception clauses compares try blocks with try blocks and handlers only: it misses a nested clause
  exactly when that is nested in a filter (`EHClauses.MissedExactlyInFilters`,
  `EHClauses.NestedInFilterIsMissed`). Inner clauses end up first, and the regions made from the list are properly
  nested, if and only if every clause inside a filter is listed before the filter's clause or lies in the try
  block or handler of a clause of that filter that is (`EHClauses.SortClauses`, `EHRegions.CreateRegionTree`,
  `EHClauses.ShelterMatters`).
* The debug map starts with the comparison value 0xFFFFFFFF and loses rows exactly when the first row has
  that IL offset (`DebugOffsets.LosslessExactly`).

## Comments that the code does not follow

The model follows the code; nothing is proved about these. A zero alignment is documented as "default" but is
a divisor (`include/Jit/EEMemoryManager.h`), so `AllocateDataSection` requires a positive one. Nonzero
read-write data is said to be allowed but is asserted away (`lib/Jit/EEMemoryManager.cpp:207`), so
`ReserveAllocationSpace` requires none. The assertion against chained unwind information compares bit 0x20
with 0x10 and never fails (`lib/Jit/EEMemoryManager.cpp:171`); it has no counterpart in the model. The
debugging check after the sort of exception clauses compares addresses of list slots, not of clauses
(`lib/Reader/reader.cpp:1556-1571`), and so does not check that the listed order is kept where clauses do not nest.

## Model

| member | source | states |
|---|---|---|
| GcLiveness.SafepointReplay | lib/GcInfo/GcInfo.cpp:534-640 | for any records, the transitions emitted up to safepoint k are a prefix of all of them and replaying them gives exactly the slots of the offsets listed as live there |
| GcLiveness.LookupByCodeOffset | lib/GcInfo/GcInfo.cpp:549-640 | when reported call sites increase, a lookup at any code offset from safepoint k up to the next one finds exactly the slots live at k |
| GcLiveness.CallSitesOrderedExactly | lib/GcInfo/GcInfo.cpp:549-556 | for increasing 32-bit safepoint offsets the reported call sites increase if and only if the subtraction wraps nowhere or everywhere |
| GcLiveness.CallSiteBeforeReturn | lib/GcInfo/GcInfo.cpp:532-556 | the reported call starts two bytes before the return address that the stack map gives, in 32-bit arithmetic |
| GcLiveness.WrappedCallSiteIsOutOfOrder | lib/GcInfo/GcInfo.cpp:549-556 | safepoints at offsets 1 and 5 are reported out of order |
| GcLiveness.EmitAlternatesAndConserves | lib/GcInfo/GcInfo.cpp:621-640 | every slot's transitions alternate starting with a birth, and births minus deaths is the number of slots live at the last safepoint |
| GcLiveness.ReplayChanges | lib/GcInfo/GcInfo.cpp:621-640 | the calls for slots below n turn the old live set into the new one below n and leave the rest, and each changes its slot's state |
| GcLiveness.AssignPrefixExtends | lib/GcInfo/GcInfo.cpp:589-607 | ids handed out for earlier records are never changed, and new ids are larger than all earlier ones |
| GcLiveness.BitsInRangeExactly | lib/GcInfo/GcInfo.cpp:539-604 | every sequence of new slots and record ends stays inside the doubling bit sets if and only if at most 25 slots exist beforehand |
| GcSlots.WholeRun | lib/GcInfo/GcInfo.cpp:753-768 | after a whole run ids are 0 to n-1 with one offset each, tracked ids form one block that isTrackedSlot describes exactly, and the emitted calls decode at every safepoint to the listed stack offsets |
| GcSlots.WholeRunReads | lib/GcInfo/GcInfo.cpp:753-768 | the same reader also succeeds by code offset when call sites increase |
| GcSlots.ReadsBackByReturn | lib/GcInfo/GcInfo.cpp:549-556 | with increasing return addresses, looking two bytes before one finds just what is live at its safepoint |
| GcSlots.SlotsOfAllocasFit | lib/GcInfo/GcInfo.cpp:652-719 | for allocations whose structs the walk reads exactly: one slot for every managed pointer that an allocation is or holds and no others, untracked, pinned just when the allocation is, interior just for an unpinned pointer of its own |
| GcSlots.TrackRecordsInterior | lib/GcInfo/GcInfo.cpp:816-830 | every tracked slot is described as interior, and as neither untracked nor pinned |
| GcSlots.RunReports | lib/GcInfo/GcInfo.cpp:753-768 | a whole run tells the encoder first of tracked interior slots, then of one slot for each managed pointer on the stack, and of no others |
| GcSlots.TrackRecordsKeepsValid | lib/GcInfo/GcInfo.cpp:583-612 | tracking any records keeps the table a bijection with one tracked block at its end, keeps listed slots tracked, and agrees with the translation's id assignment |
| GcSlots.AddSlotsKeepsValid | lib/GcInfo/GcInfo.cpp:652-719 | adding fresh untracked slots keeps ids dense and the tracked block exact |
| GcSlots.AddSlotsEffect | lib/GcInfo/GcInfo.cpp:832-846 | untracked slots are appended in order, leave the tracked block and all earlier ids alone, and map exactly the new offsets |
| GcSlots.SlotsDecode | include/GcInfo/GcInfo.h:209-224 | offset-to-id is undone by the encoder's slot list, for every set of known offsets |
| GcSlots.AggregateAssertionHolds | lib/GcInfo/GcInfo.cpp:701-713 | for a laid-out struct the assertion that an aggregate has pointers holds if and only if it has a GC-pointer leaf or no array or vector of them |
| GcInfoEmission.RunIsTranslation | lib/GcInfo/GcInfo.cpp:547-649 | processing record by record from any valid table amounts to the translation to births and deaths |
| GcInfoEmission.GcInfoEmitter.GetSlot | lib/GcInfo/GcInfo.cpp:794-814 | a new offset gets the next id, which is the slot count minus one |
| GcInfoEmission.GcInfoEmitter.GetTrackedSlot | lib/GcInfo/GcInfo.cpp:816-830 | a tracked slot extends the table and the tracked block |
| GcInfoEmission.GcInfoEmitter.GetUntrackedSlot | lib/GcInfo/GcInfo.cpp:832-846 | an untracked slot extends the table with flags for pinned and object references, not the block |
| GcInfoEmission.GcInfoEmitter.IsTrackedSlot | lib/GcInfo/GcInfo.cpp:789-792 | on a valid table, true of exactly the ids the encoder handed out for slots without the untracked flag |
| GcInfoEmission.GcInfoEmitter.MarkOffset | lib/GcInfo/GcInfo.cpp:583-612 | marks one offset's bit, growing both bit sets when needed without losing a bit, index always in range |
| GcInfoEmission.GcInfoEmitter.MarkLive | lib/GcInfo/GcInfo.cpp:569-619 | after one record's locations the new bit set holds exactly the ids of the listed offsets |
| GcInfoEmission.GcInfoEmitter.ReportChanges | lib/GcInfo/GcInfo.cpp:621-640 | reports exactly the differences of the two sets in slot order, then the new set becomes the old one and is cleared |
| GcInfoEmission.GcInfoEmitter.EncodeTrackedPointers | lib/GcInfo/GcInfo.cpp:482-650 | the table is that of tracking all records, the state calls are the translation, and every call site and size recorded add up to the return address of its safepoint |
| GcInfoEmission.GcInfoEmitter.EncodeGcAggregate | lib/GcInfo/GcInfo.cpp:701-719 | adds one slot per GC pointer found in the struct, at its offset in the frame |
| GcInfoEmission.GcInfoEmitter.EncodeUntrackedPointers | lib/GcInfo/GcInfo.cpp:652-699 | adds the slots of all allocations in order, which SlotsOfAllocasFit describes, and keeps the table valid |
| GcInfoEmission.GcInfoEmitter.EmitGCInfo | lib/GcInfo/GcInfo.cpp:753-768 | a whole run on the mutable emitter: table valid, a reader of the calls made finds the listed offsets at every safepoint and from every return address, and every managed pointer on the stack has its slot, of the right kind, and nothing else has |
| GcTypes.GetGcPointers | lib/GcInfo/GcInfo.cpp:83-134 | the loop collects the pointer-sized steps whose dive ends at a GC pointer, in order |
| GcTypes.Dive | lib/GcInfo/GcInfo.cpp:98-128 | the inner loop ends, at the field type that recursive resolution of the offset gives |
| GcTypes.WalkMember | lib/GcInfo/GcInfo.cpp:92-133 | an offset is reported if and only if it is a pointer-aligned offset of the struct that resolves to a GC pointer |
| GcTypes.WalkFindsLeavesExactly | lib/GcInfo/GcInfo.cpp:83-134 | the reported offsets are the leaves of recursive flattening in increasing order if and only if the leaves are aligned and no aligned offset lies in padding right after one |
| GcTypes.LeafResolves | lib/GcInfo/GcInfo.cpp:98-128 | diving for any offset inside a leaf reaches that leaf at any nesting depth |
| GcTypes.ResolvedIsLeaf | lib/GcInfo/GcInfo.cpp:98-132 | a GC pointer reached by a dive is one of the leaves and starts at or before the offset |
| GcTypes.PaddingIsReportedAsPointer | lib/GcInfo/GcInfo.cpp:92-133 | a pointer before sixteen-byte aligned data is reported twice |
| GcTypes.GcTypeMeaning | lib/GcInfo/GcInfo.cpp:41-62 | a type is a GC type if and only if it has a GC-pointer leaf or, at some depth, an array or vector of GC pointers |
| GcTypes.AggregateHasPointers | lib/GcInfo/GcInfo.cpp:41-62 | for every laid-out struct, aligned or not: GC aggregate if and only if the walk finds a pointer or the struct holds an array or vector of them |
| GcTypes.WalkHasPointers | lib/GcInfo/GcInfo.cpp:83-134 | the walk finds something if and only if the struct has a GC-pointer leaf, aligned or not |
| GcTypes.ArrayOfPointersIsMissed | lib/GcInfo/GcInfo.cpp:47-50 | a struct holding only an array of GC pointers is an aggregate in which the walk finds nothing |
| GcTypes.GcTypeIffManaged | lib/GcInfo/GcInfo.cpp:32-62 | a type is a GC type if and only if it is or holds, in structs, arrays or vectors, a pointer in address space 1 |
| GcTypes.NothingManagedNothingFound | lib/GcInfo/GcInfo.cpp:32-134 | a struct of other pointers and data is no GC aggregate, and the walk finds nothing in it |
| QuickSort.CQuickSort.Sort | include/GcInfo/GcInfoUtil.h:256-257 | for any total preorder the array ends sorted and permuted, and recursive calls nest at most log2(n+1) deep |
| QuickSort.CQuickSort.SortRange | include/GcInfo/GcInfoUtil.h:277-326 | the range ends sorted, is a permutation of itself, nothing outside it changes, and 2 to the nesting depth is at most its length plus one |
| QuickSort.CQuickSort.SortStep | include/GcInfo/GcInfoUtil.h:304-324 | one turn of the loop sorts the smaller side, places the pivot and leaves a strictly smaller range |
| QuickSort.CQuickSort.Partition | include/GcInfo/GcInfoUtil.h:293-306 | the middle element ends where nothing before it compares greater and nothing after it less |
| QuickSort.CQuickSort.Swap | include/GcInfo/GcInfoUtil.h:268-274 | exchanges two elements and nothing else |
| QuickSort.LeftPlaced | include/GcInfo/GcInfoUtil.h:311-317 | once the left side is sorted, every pair that involves it or the pivot is in order |
| QuickSort.RightPlaced | include/GcInfo/GcInfoUtil.h:318-324 | the same for the right side |
| SList.SList.InsertTail | include/GcInfo/GcInfoUtil.h:397-403 | the link goes last; the result is an acyclic list with the right tail if and only if the link was detached and not the tail, that is, detached and neither in the list nor the sentinel |
| SList.SList.RemoveHead | include/GcInfo/GcInfoUtil.h:405-416 | the oldest link leaves, the tail falls back to the sentinel when empty, and the removed link keeps its old successor |
| SList.SList.IsEmpty | include/GcInfo/GcInfoUtil.h:395 | true exactly when there are no links |
| SList.SList.GetHead | include/GcInfo/GcInfoUtil.h:418 | the oldest link or null |
| SList.SList.GetNext | include/GcInfo/GcInfoUtil.h:420-423 | the next link of the sequence or null |
| SList.RunOps | include/GcInfo/GcInfoUtil.h:365-424 | any interleaving of removals and insertions of links that are detached and absent when inserted, removed ones included, behaves as the queue and keeps the list valid |
| SList.QueueIsFifo | include/GcInfo/GcInfoUtil.h:365-424 | what came out followed by what is left is what was there followed by what went in |
| StructArrayList.CapacitiesAgree | include/GcInfo/GcInfoUtil.h:592-600 | the iterator's capacities equal those chosen at creation if and only if no chunk so far hit the limit |
| StructArrayList.CreatedIsLargest | lib/GcInfo/GcInfoUtil.cpp:76-91 | a chunk gets the largest capacity within the limit and what growing asks for |
| StructArrayList.MaxCapacityIsLargest | lib/GcInfo/GcInfoUtil.cpp:76-80 | the limit is the largest capacity whose bytes can be counted in 64 bits |
| StructArrayList.ChunkBytesFit | lib/GcInfo/GcInfoUtil.cpp:76-93 | a chunk's byte size never overflows, and growing does not wrap when the factor is at most the element size |
| StructArrayList.StructArrayList.ChunkCapacity | lib/GcInfo/GcInfoUtil.cpp:82-91 | the capacity of the next chunk |
| StructArrayList.StructArrayList.CreateNewChunk | lib/GcInfo/GcInfoUtil.cpp:68-111 | links one empty chunk at the end |
| StructArrayList.StructArrayList.AppendThrowing | include/GcInfo/GcInfoUtil.h:526-536 | the sequence of element addresses grows by the returned one at the end, no earlier address changes, and the new one names storage of its own |
| StructArrayList.PlacesDiffer | include/GcInfo/GcInfoUtil.h:526-536 | no two elements share storage and every address is inside its chunk |
| StructArrayList.StructArrayList.Append | include/GcInfo/GcInfoUtil.h:526-536 | writing through the returned address adds one value at the end and changes no earlier value |
| StructArrayList.StructArrayList.AppendAll | include/GcInfo/GcInfoUtil.h:526-536 | any run of appends and writes leaves all the values in order, and earlier addresses as they were |
| StructArrayList.RunReadsBack | include/GcInfo/GcInfoUtil.h:526-601 | a run from an empty list reads back: copying gives the values appended, an index gives the value appended in its place |
| StructArrayList.StructArrayList.Count | include/GcInfo/GcInfoUtil.h:538 | the length of the sequence |
| StructArrayList.StructArrayList.GetIndex | include/GcInfo/GcInfoUtil.h:551-568 | the i-th address, where the i-th value stands |
| StructArrayList.StructArrayList.CopyTo | include/GcInfo/GcInfoUtil.h:540-549 | writes the values of the whole sequence in order and nothing after them |
| StructArrayList.ArrayIterator.GetNext | include/GcInfo/GcInfoUtil.h:577-600 | yields chunk k with its filled count and steps on |
| StructArrayList.PointersOfChunk | include/GcInfo/GcInfoUtil.h:551-564 | the addresses into chunk k stand together right after those of the chunks before it |
| IntegerFit.FitsInExactly | include/GcInfo/GcInfoUtil.h:164-207 | for all widths and signednesses the check is true if and only if the value lies in the destination type |
| IntegerFit.ConvertInto | include/GcInfo/GcInfoUtil.h:172-203 | a conversion lands in the type and differs from the value by whole moduli |
| IntegerFit.RoundTrip | include/GcInfo/GcInfoUtil.h:164-207 | converting there and back, through a value that the source type has, is the identity exactly on values the destination has |
| UnwindInfo.GetXdataSize | lib/Jit/EEMemoryManager.cpp:107-147 | reported and total size from the header |
| UnwindInfo.HeaderGivesSizes | lib/Jit/EEMemoryManager.cpp:107-147 | for every well-formed entry those are the lengths of its reported bytes and of all its bytes |
| UnwindInfo.CommonSizes | lib/Jit/EEMemoryManager.cpp:107-147 | the sizes of entries with and without a handler and with few codes |
| UnwindInfo.EntrySize | lib/Jit/EEMemoryManager.cpp:107-147 | an entry takes at least 8 bytes, a multiple of 4, and no fewer than it reports |
| UnwindInfo.ReserveUnwindSpace | lib/Jit/EEMemoryManager.cpp:149-192 | on every well-formed section: one reservation per entry in order with its reported size, handlers after the first, ending at the sentinel or the end |
| UnwindInfo.RegisterEHFrames | lib/Jit/EEMemoryManager.cpp:250-339 | reading back the documented layout: every entry's location and size with its code range, the clause count, every clause once in order |
| UnwindInfo.CollectUnwindBlocks | lib/Jit/EEMemoryManager.cpp:270-294 | the walk collects where each entry starts and what it reports, and stops after the last one |
| UnwindInfo.AllocateUnwindInfo | lib/Jit/EEMemoryManager.cpp:313-329 | the function and each funclet are allocated with the end offsets written in the trailer |
| UnwindInfo.ReadClauses | lib/Jit/EEMemoryManager.cpp:330-338 | the clauses written are the clauses reported |
| UnwindInfo.ReservedIsAllocated | lib/Jit/EEMemoryManager.cpp:149-329 | the reservations made from the object file equal, call by call, the allocations made from memory after relocation |
| UnwindInfo.AllocationsFollow | lib/Jit/EEMemoryManager.cpp:296-329 | each code range starts where the one before ends, from 0 to the last end offset, first root, rest handlers |
| UnwindInfo.AllocationsTile | lib/Jit/EEMemoryManager.cpp:296-329 | the ranges are in order and pairwise disjoint if and only if the end offsets ascend, and then every offset below the last end lies in exactly one |
| UnwindInfo.BlocksAreEntries | lib/Jit/EEMemoryManager.cpp:270-294 | each unwind block is the reported bytes of its entry and blocks do not overlap |
| UnwindInfo.WordRoundTrip | lib/Jit/EEMemoryManager.cpp:308-331 | reading a written 32-bit word gives it back |
| UnwindInfo.LowByteFirst | lib/Jit/EEMemoryManager.cpp:308-331 | words are read with the low byte first |
| DataSections.PlaceIsAligned | lib/Jit/EEMemoryManager.cpp:58-77 | the padded address is the first one aligned from the base |
| DataSections.PlaceIsWellAligned | lib/Jit/EEMemoryManager.cpp:58-73 | the padded address is a multiple of the alignment, or at a multiple of it from the block in the prejit case |
| DataSections.PlaceAllLaysOut | lib/Jit/EEMemoryManager.cpp:50-93 | any run places each section after the one before, aligned, with padding below its alignment, within the budget of sizes plus alignments minus one |
| DataSections.SectionsDisjoint | lib/Jit/EEMemoryManager.cpp:75-78 | sections are in order and pairwise disjoint, from the block's start to the free space |
| DataSections.BudgetSuffices | lib/Jit/EEMemoryManager.cpp:80-82 | when the budget is reserved the bounds assertion holds at every step of every run |
| DataSections.EEMemoryManager.ReserveAllocationSpace | lib/Jit/EEMemoryManager.cpp:194-246 | starts with no sections, free space at the block's start, alignment flags as asked |
| DataSections.EEMemoryManager.AllocateDataSection | lib/Jit/EEMemoryManager.cpp:50-93 | appends one section at the returned address, aligned absolutely or from the block in the prejit case, and keeps earlier ones; a stack-map section is remembered |
| DataSections.EEMemoryManager.AllocateAll | lib/Jit/EEMemoryManager.cpp:50-93 | any run within the reserved budget goes through and is laid out, every section aligned absolutely or from the block in the prejit case |
| MethodPatterns.Scan | lib/Jit/utility.cpp:68-82 | the next token and the position after it, for every string and position, or the exception |
| MethodPatterns.ParseArgs | lib/Jit/utility.cpp:15-26 | the number up to the next parenthesis, or any number of arguments when there is none |
| MethodPatterns.Parse | lib/Jit/utility.cpp:28-66 | the pattern at a position, no pattern, or the exception |
| MethodPatterns.ParsePatterns | lib/Jit/utility.cpp:91-100 | the loop ends with all patterns up to the first failure |
| MethodPatterns.ParseAdvances | lib/Jit/utility.cpp:28-66 | every successful parse moves the cursor on |
| MethodPatterns.PrintParseRoundTrip | include/Jit/utility.h:90-111 | printing any list of valid patterns with any blanks and parsing gives the list back if and only if nothing follows it and every gap but the first starts with a space or follows an argument count; a well-separated list followed by blanks that stand apart throws |
| MethodPatterns.ParseMisreads | lib/Jit/utility.cpp:28-82 | a pattern without an argument count that the text after it runs on into is not read as itself |
| MethodPatterns.TabIsPartOfName | lib/Jit/utility.cpp:68-82 | a tab between two names makes one name of them, and a tab at the end becomes part of the name |
| MethodPatterns.ThrowsOnlyOnTrailingBlank | lib/Jit/utility.cpp:15-100 | for every string and position, the exception means that the string ends in a blank |
| MethodPatterns.DocumentedExampleThrows | include/Jit/utility.h:105-109 | the documented example of three patterns throws |
| MethodPatterns.AtoiReadsDecimal | lib/Jit/utility.cpp:22-23 | reading a printed argument count gives it back |
| MethodPatterns.AtoiReadsNumber | lib/Jit/utility.cpp:22-23 | a number is read with its sign, up to what is no digit |
| MethodPatterns.AtoiReadsNothing | lib/Jit/utility.cpp:22-23 | text that is no number is read as 0 |
| MethodPatterns.MinusOneIsAny | lib/Jit/utility.cpp:15-26 | an argument count of -1 is read as any number of arguments |
| MethodPatterns.IllegalEndsTheList | lib/Jit/utility.cpp:28-66 | a list that goes on with an illegal pattern reads as the patterns before it |
| MethodPatterns.UnclosedEndsTheList | lib/Jit/utility.cpp:15-26 | an argument count that is not closed is read as any number of arguments, and ends the list |
| MethodPatterns.NullIsEmpty | lib/Jit/utility.cpp:122-123 | a null class or method name is matched as the empty one |
| MethodPatterns.Contains | lib/Jit/utility.cpp:112-153 | true exactly when some pattern of the list selects the method |
| MethodPatterns.SelectsAsMeant | lib/Jit/utility.cpp:130-150 | a parsed pattern selects exactly what the written pattern means |
| MethodPatterns.SetMeansItsPatterns | lib/Jit/utility.cpp:91-153 | from option string to answer: the set selects exactly the methods some printed pattern means |
| MethodSetInit.StepKeepsInvariant | lib/Jit/utility.cpp:84-110 | every step of every thread keeps: at most one winner, published list is the winner's, live lists are those not deleted |
| MethodSetInit.OneWinner | lib/Jit/utility.cpp:102-109 | in every interleaving at most one thread wins, the published list exists and is the winner's, a returned loser's list is deleted |
| MethodSetInit.PublishedOnce | lib/Jit/utility.cpp:102-109 | the published list goes from null to one list and never changes |
| MethodSetInit.AllReturned | lib/Jit/utility.cpp:84-110 | when all threads have returned exactly the published list is left |
| MethodSetInit.LateThreadSkips | lib/Jit/utility.cpp:84-89 | a thread that starts once a list is published builds none |
| MethodSetInit.ReturnFindsListExactly | lib/Jit/utility.cpp:84-115 | a returned thread finds the set initialised if and only if no winner is between its compare-and-swap and its store |
| MethodSetInit.LoserMayReturnTooEarly | lib/Jit/utility.cpp:102-115 | an interleaving in which the loser has returned and no list is published |
| MethodSetInit.Ask | lib/Jit/utility.cpp:84-153 | a query is answered by searching what the publishing thread parsed from its string |
| MethodSetInit.AnswersAreTheWinners | lib/Jit/utility.cpp:84-153 | in every interleaving, whenever a list is published, every query is answered by the patterns in the winner's string |
| MethodSetInit.AnswersMeanThePatterns | lib/Jit/utility.cpp:84-153 | when all threads are given one printed list, from publication on a query selects exactly the methods some pattern means, whoever won |
| SysVAbi.Classify | lib/Reader/abi.cpp:159-260 | how a value is passed and how many registers of each kind its eightbytes need |
| SysVAbi.PassArgument | lib/Reader/abi.cpp:297-318 | one argument's final form and the registers left |
| SysVAbi.ComputeSignatureInfo | lib/Reader/abi.cpp:288-319 | the registers left at the end, and the forms of the result and all arguments: small managed integers are extended so that every value is kept, structs are in pieces exactly when the psABI rule puts them in registers, results in memory are indirect, everything else is direct |
| SysVAbi.FormsFit | lib/Reader/abi.cpp:159-260 | those forms, for every result and argument list |
| SysVAbi.ExtensionKeepsValues | lib/Reader/abi.cpp:239-245 | sign extension keeps the value of every signed bit pattern and zero extension that of every unsigned one |
| SysVAbi.ExpansionsFit | lib/Reader/abi.cpp:188-222 | piece i of a struct stands at eightbyte i's offset, is floating point just for SSE, a managed pointer just for a reference, and as wide as the eightbyte |
| SysVAbi.ArgumentRegisters | lib/Reader/abi.cpp:188-260 | an argument in registers has one for each of its parts, an SSE register just for what is floating point |
| SysVAbi.LastRegisters | lib/Reader/abi.cpp:294-295 | there are six integer and eight SSE registers |
| SysVAbi.AssignEachExactly | lib/Reader/abi.cpp:302-315 | assigning eightbytes one by one succeeds if and only if the counts fit, and uses up the counts |
| SysVAbi.FreeIsUnused | lib/Reader/abi.cpp:294-318 | after every argument list the counted free registers are those the psABI rule leaves |
| SysVAbi.CountingIsAssigning | lib/Reader/abi.cpp:294-318 | at every argument of every list: in registers exactly when the psABI rule puts it there, and a struct is expanded in the list of answers exactly then |
| SysVAbi.RegistersConserved | lib/Reader/abi.cpp:294-315 | registers in use plus registers free is constant and no register is handed out twice |
| SysVAbi.HiddenResultPointer | lib/Reader/abi.cpp:294 | a result in memory costs one integer register, as assigning its address does |
| DebugOffsets.GetOffsetMappings | lib/Jit/LLILCJit.cpp:624-680 | the count sizes the array exactly and the fill writes all of it; nothing is sent when there are no entries |
| DebugOffsets.Fill | lib/Jit/LLILCJit.cpp:644-674 | the second pass fills the counted array with the skipped-repeat mappings |
| DebugOffsets.NeighboursDiffer | lib/Jit/LLILCJit.cpp:633-643 | adjacent entries differ in IL offset |
| DebugOffsets.EntryDescribesRow | lib/Jit/LLILCJit.cpp:660-674 | every entry has the IL and native offset of a row that does not repeat the one before, and is a call exactly when the row has column 1 |
| DebugOffsets.RowHasEntry | lib/Jit/LLILCJit.cpp:660-674 | every such row has its entry |
| DebugOffsets.FirstRowLost | lib/Jit/LLILCJit.cpp:633-643 | a first row is lost if and only if its IL offset is 0xFFFFFFFF |
| DebugOffsets.LosslessExactly | lib/Jit/LLILCJit.cpp:633-674 | at every row the last entry written carries the row's IL offset, if and only if the first row's is not 0xFFFFFFFF |
| DebugOffsets.LookupFindsRow | lib/Jit/LLILCJit.cpp:656-674 | with increasing 32-bit addresses a lookup by native offset finds the IL offset of the row it falls in |
| EHClauses.MissedExactlyInFilters | lib/Reader/reader.cpp:1533-1553 | under the rules the sort's test misses a nested clause if and only if it is nested in a filter |
| EHClauses.NestedInFilterIsMissed | lib/Reader/reader.cpp:1533-1553 | a clause inside a filter that the test does not see |
| EHClauses.InsideMeansNested | lib/Reader/reader.cpp:1533-1553 | under the rules the test on try offsets and lengths says whether all of one clause lies in the other's try block or handler |
| EHClauses.FindPlace | lib/Reader/reader.cpp:1607-1610 | the first clause that the key passes the test against |
| EHClauses.SortClauses | lib/Reader/reader.cpp:1595-1623 | for all clauses that nest, in any order: a permutation in which no clause passes the test against an earlier one, as the program asserts, with the handlers of each try block in order; no clause comes before one nested in it if and only if filters are sheltered in the listing |
| EHClauses.StepIsExact | lib/Reader/reader.cpp:1604-1617 | every insertion keeps that equivalence for the clauses inserted so far |
| EHClauses.ShelterMatters | lib/Reader/reader.cpp:1604-1617 | a listing with a late clause in a filter that sorts right, and the same without the clause around it that does not |
| EHClauses.TestTransitive | lib/Reader/reader.cpp:1533-1553 | among clauses that nest the test is transitive and never holds of a clause and itself |
| EHClauses.MoveKeepsOrder | lib/Reader/reader.cpp:1607-1616 | moving the key to its place keeps the order of the test among everything sorted so far |
| EHClauses.MoveKeepsHandlers | lib/Reader/reader.cpp:1607-1616 | the key passes no clause of its own try block |
| EHRegions.FindLowestEnclosingRegion | lib/Reader/reader.cpp:1361-1427 | a region in any tree, and in a properly nested one the innermost region around the range |
| EHRegions.DirectlyEnclosed | lib/Reader/readerir.cpp:201-208 | between a region and one inside it lies a region whose enclosing ancestor is the outer one |
| EHRegions.NoneInsideIsInnermost | lib/Reader/reader.cpp:1383-1425 | a region around a range with no directly enclosed region around it is the innermost |
| EHRegions.PushKeepsTree | lib/Reader/reader.cpp:1430-1461 | a region made below the innermost one around it keeps the tree properly nested |
| EHRegions.AroundHandler | lib/Reader/reader.cpp:1682-1732 | a clause's handler and filter lie just where its try region lies |
| EHRegions.RegionTree.TryRegion | lib/Reader/reader.cpp:1649-1680 | finds the try region another handler made, or makes one in its place |
| EHRegions.RegionTree.HandlerRegions | lib/Reader/reader.cpp:1682-1737 | makes handler and filter regions; entries stay lexically first, and a properly nested tree stays so with handlers in order |
| EHRegions.RepresentedIsHandled | lib/Reader/reader.cpp:1683-1732 | every clause has a handler region with its range below its try region, which is a finally, fault, catch or filter-handler region just as the clause is, and a filter region that ends where the handler starts |
| EHRegions.GetFinallyRegion | lib/Reader/reader.cpp:2188-2199 | finds the handler region of the try block's finally clause, and something exactly when there is one |
| EHRegions.RegionTree.AddClause | lib/Reader/reader.cpp:1644-1737 | adds the regions of any clause, and extends the tree of clauses that it may precede to its own |
| EHRegions.CreateRegionTree | lib/Reader/reader.cpp:1581-1745 | for all clauses that nest, in any order: the regions of the clauses and no others, each try region with its lexically first block as entry and each handler of its clause's kind; they are nested exactly as their ranges are if and only if filters are sheltered in the listing, and then each try region's handlers are in clause order |
| EHRegions.OutOfOrderIsNotNested | lib/Reader/reader.cpp:1644-1737 | a clause that ends up after the clause of its filter makes regions that are not properly nested |
| EHRegions.AroundIsOlder | lib/Reader/reader.cpp:1644-1677 | in a properly nested tree what lies around a region was made before it |
| RegionWalk.QuietUntilTransition | lib/Reader/reader.cpp:2213-2284 | up to the reported transition the region is the innermost one |
| RegionWalk.TransitionChanges | lib/Reader/reader.cpp:2213-2284 | at the reported transition it no longer is |
| RegionWalk.ScanChildren | lib/Reader/reader.cpp:2213-2280 | finds the directly enclosed region with the offset, or the next transition |
| RegionWalk.SwitchRegion | lib/Reader/reader.cpp:2201-2285 | the innermost region at the offset and up to the next transition, and exactly the try regions whose entry starts there, outermost first |
| RegionWalk.EntryStartsFirst | lib/Reader/reader.cpp:1733-1737 | the entry of a try region starts strictly before its other blocks |
| RegionWalk.AboveEntersEarlier | lib/Reader/readerir.cpp:3394-3413 | a try region above another one, or whose handler is, has the earlier entry |
| RegionWalk.FollowRegions | lib/Reader/reader.cpp:2328-2346 | along the code the current region is the innermost one at every instruction; every try region is entered once, at the offset where the first of it and its handlers starts, and after every try region above it, on whose exception pads it depends |
| RegionWalk.RegionsOfInstructions | lib/Reader/reader.cpp:1581-2346 | the same from the clauses of a method on, listed with filters sheltered |

## Left out

- GcInfoEmission.GcInfoEmitter.EncodeTrackedPointers: requires at most 25 slots beforehand, which BitsInRangeExactly shows to be the condition for the bit sets to suffice; the emitter itself always starts with none.
- GcTypes.GetGcPointers: requires the struct size plus the pointer size to fit in 32 bits, so that the loop counter does not wrap, and nested structs not to be empty, where the layout query itself is undefined.
- StructArrayList.StructArrayList.AppendThrowing: requires the grown capacity modulo 2 to the 64 not to be 0, since the code would then write into a chunk without room; ChunkBytesFit shows when growing does not wrap at all.
- StructArrayList.StructArrayList.AppendAll: requires that of as many chunks as there are elements none grows to 0, for the same reason.
- StructArrayList.StructArrayList.GetIndex: requires that no chunk but the last has hit the limit, the exact condition of CapacitiesAgree.
- MethodPatterns.ParseArgs: numbers are unbounded, so overflow in atoi, which C leaves undefined, is not modelled.
- MethodSetInit.StepKeepsInvariant: threads interleave step by step on a shared memory that is sequentially consistent; reordering of the plain store of the list and an exception during parsing are not modelled.
- QuickSort.CQuickSort.SortRange: index arithmetic is unbounded, so (iLeft + iRight) / 2 does not overflow.
- EHClauses.SortClauses: requires the rules the program states for how clauses nest; of their order it requires nothing.
- EHRegions.CreateRegionTree: requires fewer than 65536 clauses, since the loop counts them in 16 bits; regions are positions in a sequence instead of pointers, so aliasing of region objects is not modelled.
- RegionWalk.RegionsOfInstructions: requires filters to be sheltered in the listing, which CreateRegionTree shows to be the condition for properly nested regions.
- RegionWalk.FollowRegions: requires regions to start and end at instructions, which ECMA-335 demands; a transition inside an instruction would never be met.
- Class tokens of catch clauses, and what fgEnterRegion does with an entered region: table look-ups and LLVM calls.
- The byte comparison that is the default order of CQuickSort; any total preorder is allowed instead.
- The pointer arithmetic from a link to the object that holds it (GetObject in SList): links stand for their objects.
- GS cookie, security object and generics context reporting, logging, code length and stack base register of the GC tables: no algorithm.
- Register locations in stack maps: the program asserts that there are none.
- The number of words of an exception clause comes from the execution engine's header, which is not part of this model; it is taken as six.
- Win64 argument classification, and the LLVM types made for arguments other than expanded eightbytes: tables without state.
- The local-variable part of the debug information, function sizes from symbols, relocation recording: one-step copying.
- BitPosition, roundUp, IS_ALIGNED, the hash table wrapper: bit tricks or forwarding.
- The rest of the MSIL reader, the object writer, the disassembler comparison and the ORC layers: code outside the algorithms above.
