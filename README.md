# OS/161 virtual memory, sbrk, file table and process table — a Dafny model

This project models the memory-management core of an OS/161 kernel and the two per-process
tables that sit beside it. It then proves properties of that model, including several defects
of the code as written.

- **Frame directory (`Coremap`).** The directory holds one 32-bit descriptor word per managed
  physical frame. Each word has these fields:
  - a page-aligned virtual address in bits 12-31;
  - a 6-bit owner pid;
  - the USE and ALLOC_END flags;
  - a two-bit state: FREE, DIRTY, CLEAN or FIXED;
  - permission bits.

  Beside the words sit the counter `nfreepages` and the rotating cursor `next_free`.
  `acquire_pages` is a first-fit allocator of contiguous runs. `acquire_one_page` is its
  single-frame fast path. `free_kpages` walks forward to the frame tagged ALLOC_END.
- **Swap (`Swap`).** The swap map is a fixed array of (in_use, addr, pid) slots. The clock hand
  `swapclock` drives `swapout`, and `swapin` brings a page back into a FREE frame.
- **TLB (`Tlb`).** The 64 (entryhi, entrylo) pairs that `vm_fault` and `vm_tlbinvalidate` program.
- **Address spaces (`AddrSpaces`).**
  - Four segments (code, data, stack, heap), each with half-open bounds and a permission word.
  - A two-level page table: 1024 directory slots, each linking a table of 1024 entries.
  - The operations `as_create`, `as_copy`, `as_destroy`, `as_define_region`,
    `as_complete_load`, `as_get_pt_entry`, `as_set_pt_entry`, `as_is_valid_address` and
    `as_get_permission`.
- **VM operations (`VmOps`).** `alloc_kpages`, `duplicate_pagetable`, the fault handler
  `vm_fault`, and the heap-page operations `alloc_sbrk_pages` and `free_sbrk_pages`.
- **`sys_sbrk` (`Sbrk`).** Its checks on the requested heap move, and its dispatch to the
  heap-page operations.
- **File table (`FileTables`).** The per-process table of OPEN_MAX descriptor slots holding
  reference-counted open-file handles.
- **Process table (`ProcTables`).** The pid-indexed table with its rotating next-pid search.

State that the C code changes in place becomes Dafny classes with `modifies` frames: the frame
directory, the swap map, the TLB, address spaces, file tables and their handles, and the process
table. Descriptor words are `bv32` values with the header's masks. Addresses and counters are
integers held to the unsigned 32-bit range, with every unsigned wrap of the C code written out
(`Wrap32`). Page tables are values: the code never links one table into two directories.

Each loop is a method proved against a specification function, for example `RunScan`,
`ScanFree`, `FreeRun`, `Victim`, `Probe` or `AfterFrees`. Lemmas then prove what the source
promises about those functions, and what it fails to deliver.

## Model

| member | source | states |
|---|---|---|
| Common.Wrap32 | kern/vm/vm.c:752 | unsigned 32-bit wrap of an exact result lands in the u32 range and leaves in-range values alone |
| Common.Wrap32IsMod | kern/vm/vm.c:786 | the wrap is reduction modulo 2^32 |
| Common.Wrap32Add | kern/vm/vm.c:622 | a chain of wrapped increments equals one wrapped sum |
| Common.PageFrame | kern/vm/vm.c:399 | `x & PAGE_FRAME` is the page-aligned base of the page containing x |
| Common.PageFrameIdem | kern/vm/vm.c:452 | masking an aligned address again changes nothing |
| Common.KvaddrToPaddr | kern/vm/vm.c:800 | the kseg0-to-physical translation stays in the u32 range |
| Common.PaddrToKvaddr | kern/vm/vm.c:254-257 | the physical-to-kseg0 translation stays in the u32 range |
| Common.KvaddrRoundTrip | kern/vm/vm.c:269 | the two address translations are inverse to each other on every 32-bit value |
| Common.FirstWhereSpec | kern/vm/vm.c:647-654 | the linear search returns the first hit at or above its start, and none only when there is none |
| Common.FirstWhereAt | kern/vm/vm.c:507-514 | an index that hits after only misses is what the search returns |
| VmDefs.ClearPpageUse | kern/include/vm.h:93 | CLEAR_PPAGE_USE yields a value without USE that agrees with the word on every other bit |
| VmDefs.PidBits | kern/vm/vm.c:538 | `pid << 6` leaves the low six bits clear |
| VmDefs.Decode | kern/include/vm.h:68-95 | the decoded fields agree with each IS_PPAGE_* macro, both ways |
| VmDefs.EncodeDecode | kern/include/vm.h:68-80 | the fields cover all 32 bits: encoding a decoded word gives the word back |
| VmDefs.DecodeEncode | kern/include/vm.h:68-80 | decoding an encoded well-formed descriptor gives it back |
| VmDefs.EncodeUpper | kern/include/vm.h:68-72 | the upper field reads back through `& 0xFFFFF000` |
| VmDefs.EncodeOwner | kern/include/vm.h:68 | the owner field reads back through `(w & PP_PID_MASK) >> 6` |
| VmDefs.EncodePerm | kern/include/vm.h:72 | the permission field reads back through PP_PERMISSION_MASK |
| VmDefs.EncodeUse | kern/include/vm.h:69 | the USE flag reads back through PP_USE_MASK |
| VmDefs.EncodeAllocEnd | kern/include/vm.h:70 | the ALLOC_END flag reads back through PP_ALLOC_END_MASK |
| VmDefs.EncodeState | kern/include/vm.h:71 | the state reads back through PP_STATE_MASK |
| VmDefs.PidFieldRoundTrip | kern/include/vm.h:67-68 | the owner field round-trips a pid exactly when the pid is below 64 |
| VmDefs.ExactlyOneState | kern/include/vm.h:87-90 | every word is in exactly one of the four states |
| VmDefs.AllocEndIsBitFour | kern/include/vm.h:95 | IS_PPAGE_ALLOC_END reads bit 4 alone, unaffected by any other bit |
| VmDefs.PermissionFlagsOverlap | kern/include/vm.h:82-84 | PP_READABLE equals the DIRTY state value, and PP_WRITEABLE and PP_EXECUTABLE lie inside the owner field |
| VmDefs.Sizing | kern/include/vm.h:46-63 | the derived sizes: 4096 frames, 1280 swap pages, 8 directory pages, 512 and 1024 entries per page |
| Coremap.AllocWord | kern/vm/vm.c:157-168 | the allocation word is DIRTY with USE and the owner, and has ALLOC_END exactly on the run's end |
| Coremap.CountFree | kern/vm/vm.c:69-74 | the number of FREE descriptors is at most the number of frames |
| Coremap.CountFreeUpdate | kern/vm/vm.c:162 | rewriting one word changes the free count by the change in that word's FREE-ness |
| Coremap.RunScanSound | kern/vm/vm.c:134-156 | a run acquire_pages reports is all FREE, lies below the last frame, and ends at the new cursor |
| Coremap.RunScan | kern/vm/vm.c:134-156 | acquire_pages's scan with the count reset at the wrap; a run it reports ends at a frame index, the new next_free |
| Coremap.RunScanFirstFit | kern/vm/vm.c:134-156 | a FREE run at or after the cursor that stops short of the last frame is found, no later than its own end |
| Coremap.FirstFitFromCursor | kern/vm/vm.c:119-156 | the same first-fit property from the call's starting state |
| Coremap.SecondPassEndsBeforeCursor | kern/vm/vm.c:134-156 | after the wrap the scan visits frames 0 up to the cursor only, so a run it reports ends at or before the cursor |
| Coremap.FirstPassNoStraddle | kern/vm/vm.c:134-156 | before the wrap the run length counts only frames at or after the cursor, so a reported run never straddles the cursor |
| Coremap.ReportedRunPlacement | kern/vm/vm.c:134-156 | for every directory, cursor and request: a reported run never contains the last frame and lies wholly before or wholly after the cursor |
| Coremap.FirstPassThenSecond | kern/vm/vm.c:134-156 | a FREE run wholly before the cursor is found, by the first pass or else after the wrap |
| Coremap.FirstFitBeforeCursor | kern/vm/vm.c:119-156 | acquire_pages finds a run when a FREE run of that length lies wholly before the cursor |
| Coremap.RunScanNoneIff | kern/vm/vm.c:119-156 | acquire_pages fails exactly when every FREE run of the requested length ends on the last frame or straddles the cursor |
| Coremap.RunAtTopNeverFound | kern/vm/vm.c:143-148 | example: three frames, the last two FREE, a request for two fails, because the wrap resets the count before the comparison |
| Coremap.RunAcrossCursorMissed | kern/vm/vm.c:134-156 | example: four frames, frames 1 and 2 FREE, the cursor at 2, a request for two fails |
| Coremap.MarkRun | kern/vm/vm.c:157-168 | marking rewrites exactly the run's frames, with ALLOC_END on the highest |
| Coremap.MarkRunStep | kern/vm/vm.c:157-168 | the marking loop extends the marked run one frame at a time |
| Coremap.CountMarkRun | kern/vm/vm.c:157-168 | marking a FREE run lowers the free count by the run's length |
| Coremap.Circ | kern/vm/vm.c:200-216 | a circular offset from the cursor is a frame index |
| Coremap.ScanFree | kern/vm/vm.c:200-216 | acquire_one_page's circular scan; a frame it reports is a FREE frame of the directory |
| Coremap.ScanFreeSpec | kern/vm/vm.c:200-216 | acquire_one_page's scan finds the first FREE frame in circular order, and none only when every frame is in use |
| Coremap.ScanFreeNoneIffFull | kern/vm/vm.c:200-227 | the scan fails exactly when no frame is FREE |
| Coremap.FreeRunLen | kern/vm/vm.c:283-290 | free_kpages releases at least one frame and never runs past the directory |
| Coremap.FreeRunLenSpec | kern/vm/vm.c:283-290 | the release stops exactly at the first ALLOC_END frame, or at the last frame |
| Coremap.FreeRun | kern/vm/vm.c:283-290 | freeing sets exactly the run's frames to PP_FREE |
| Coremap.FreeRunStep | kern/vm/vm.c:283-290 | the release loop extends the freed run one frame at a time |
| Coremap.FreeRunKeepsFreeZero | kern/vm/vm.c:285 | freeing keeps every FREE word equal to zero |
| Coremap.CountFreeRun | kern/vm/vm.c:283-290 | freeing a run of allocated frames raises the free count by the run's length |
| Coremap.ClaimKeepsCount | kern/vm/vm.c:157-168 | claiming a FREE run keeps a correct counter correct, without wrapping, and keeps FREE words zero |
| Coremap.MarkThenFree | kern/vm/vm.c:157-168 | alloc/free round trip: freeing from the base of a marked run releases exactly that run and restores every word |
| Coremap.OneThenFree | kern/vm/vm.c:203-205 | single-frame round trip: the ALLOC_END word makes free_kpages release that frame alone |
| Coremap.ClaimOneKeepsCount | kern/vm/vm.c:200-227 | claiming the frame the scan finds keeps the counter exact, and a positive correct count guarantees a frame is found |
| Coremap.PhysMem.FrameIndexOf | kern/vm/vm.c:269 | the unsigned frame index of an address lies within 2^20 |
| Coremap.PhysMem.FrameIndexOfAddr | kern/vm/vm.c:269 | every address inside frame k indexes frame k |
| Coremap.PhysMem.AfterFree | kern/vm/vm.c:265-298 | the state free_kpages leaves is a well-sized directory and a u32 counter |
| Coremap.PhysMem.AfterFrees | kern/vm/addrspace.c:149-163 | successive frees leave a well-sized directory and a u32 counter |
| Coremap.PhysMem.AfterFreesSnoc | kern/vm/addrspace.c:153-158 | one more free extends the sequence of frees |
| Coremap.PhysMem.AfterFreesAppend | kern/vm/addrspace.c:149-163 | freeing a + b is freeing a, then b |
| Coremap.PhysMem.constructor | kern/vm/vm.c:69-74 | vm_bootstrap: every managed frame FREE, the counter equal to the frame count, the cursor 0 |
| Coremap.PhysMem.AcquirePages | kern/vm/vm.c:119-182 | claims exactly the run RunScan finds and returns its address, or returns 0 with nothing changed; keeps the counter exact |
| Coremap.PhysMem.ScanForRun | kern/vm/vm.c:134-156 | the scan loop finds a run exactly when RunScan does, and that run is FREE |
| Coremap.PhysMem.ClaimRun | kern/vm/vm.c:157-170 | the marking loop leaves MarkRun's directory, the counter lowered by the run's length, and the run's base address |
| Coremap.PhysMem.AcquireOnePage | kern/vm/vm.c:186-228 | claims the first FREE frame in circular order; when none is FREE it changes nothing yet still returns a frame address, never 0 |
| Coremap.PhysMem.FreeKPages | kern/vm/vm.c:265-298 | ignores addresses outside the directory; otherwise frees FreeRunLen frames from the address's frame and raises the counter by as many |
| Coremap.PhysMem.ReleaseRun | kern/vm/vm.c:283-290 | the do-while loop leaves FreeRun's directory and the counter raised by the run's length |
| Swap.ScanStart | kern/vm/vm.c:717-720 | swapout's scan starts inside the directory |
| Swap.IsVictim | kern/vm/vm.c:728-740 | swapout skips FIXED and FREE frames, so it evicts exactly the DIRTY and CLEAN ones |
| Swap.Victim | kern/vm/vm.c:717-786 | the frame swapout evicts, if any, is an evictable frame of the directory |
| Swap.VictimScanSpec | kern/vm/vm.c:722-784 | the clock scan picks the first frame after the hand that is neither FIXED nor FREE, and none only when no visited frame qualifies |
| Swap.VictimScanFound | kern/vm/vm.c:722-784 | a reported victim is the first frame in circular order that is neither FIXED nor FREE |
| Swap.VictimScanNone | kern/vm/vm.c:722-784 | no victim is reported only when none of the frames visited qualifies |
| Swap.ClockPosition | kern/vm/vm.c:722 | when the hand names a frame, the scan returns to it only after visiting every other frame |
| Swap.VictimNotClock | kern/vm/vm.c:722 | the frame under the hand is never evicted |
| Swap.VictimWhenClockPast | kern/vm/vm.c:786 | once the unwrapped hand has passed the last frame, the scan finds a victim exactly when one exists |
| Swap.EvictKeepsCount | kern/vm/vm.c:751-752 | evicting a victim keeps a correct counter correct and FREE words zero |
| Swap.SwapinWordFields | kern/vm/vm.c:817 | swapin's word ORs in the unshifted pid: bit 2 of the pid makes the frame FIXED, and the owner field holds pid bits 6-11 |
| Swap.SwapinWord | kern/vm/vm.c:817 | the word swapin writes is never FREE and carries USE and ALLOC_END |
| Swap.SwapinPidFourIsFixed | kern/vm/vm.c:817 | process 4's swapped-in frame is FIXED, so it can never be evicted again |
| Swap.SwapKey | kern/vm/vm.c:800 | swapin's lookup key is a frame index below 2^20 |
| Swap.SwapoutEntry | kern/vm/vm.c:759-761 | the slot swapout writes is in use, records the page's physical address, and records pid 0, read back after the descriptor was set to PP_FREE |
| Swap.SwapoutEntryNeverFound | kern/vm/vm.c:759-761 | swapin never finds an entry swapout wrote when its pid is non-zero, whatever the base address; and for every pid when frames start at or above 1 MiB, because swapout records a physical address while swapin looks up a frame index |
| Swap.RemoveThenFind | kern/vm/vm.c:689-710 | removing the entry find_swap_idx returns exposes the next matching entry |
| Swap.SwapMap.constructor | kern/vm/vm.c:81-85 | vm_bootstrap's swap map: every slot unused, the hand at 0 |
| Swap.SwapMap.GetFreeSwapIdx | kern/vm/vm.c:639-662 | returns the lowest unused slot, or none when every slot is in use |
| Swap.SwapMap.FindSwapIdx | kern/vm/vm.c:666-686 | returns the lowest in-use slot matching (addr, pid), or none when no slot matches |
| Swap.SwapMap.RemoveSwapEntry | kern/vm/vm.c:689-710 | clears in_use on exactly that slot, or changes nothing |
| Swap.SwapMap.FindVictim | kern/vm/vm.c:717-784 | the scan loop stops at Victim's frame, and finds one exactly when Victim does |
| Swap.SwapoutSlots | kern/vm/vm.c:757-761 | with a victim, the lowest unused slot now records it in use and every other slot is kept; without one the map is unchanged |
| Swap.SwapMap.Swapout | kern/vm/vm.c:714-787 | frees the victim, counts it free, records its physical address with pid 0 in the lowest free slot, invalidates the TLB; the hand advances, unwrapped |
| Swap.SwapMap.Swapin | kern/vm/vm.c:790-841 | SWAPIN_NO_MEM exactly when no frame is free; SWAPIN_NOT_FOUND exactly when a frame is free but no entry matches; otherwise claims the first FREE frame from next_free with the unshifted-pid word; only SWAPIN_OK changes the directory |
| Tlb.InstallKeepsDistinct | kern/vm/vm.c:507-519 | installing keeps the TLB free of duplicate pages, and the page is then found in the slot written |
| Tlb.InstallIsFound | kern/vm/vm.c:507-519 | whatever the TLB held, a lookup right after installing hits the slot written |
| Tlb.DistinctAfterWrite | kern/vm/vm.c:511 | writing a page no other slot holds keeps the TLB duplicate-free |
| Tlb.OnlySlotForPage | kern/vm/vm.c:507-519 | in a duplicate-free TLB, only the slot the install chooses can hold the page |
| Tlb.Tlb.constructor | kern/vm/vm.c:104-115 | every slot invalid |
| Tlb.Cleared | kern/vm/vm.c:104-115 | the TLB vm_tlbinvalidate leaves: NUM_TLB slots, all invalid |
| Tlb.Tlb.Invalidate | kern/vm/vm.c:104-115 | vm_tlbinvalidate makes every slot invalid, which is duplicate-free |
| Tlb.Tlb.Install | kern/vm/vm.c:502-524 | overwrites the first slot holding the same page, or the tlb_random slot; nothing else changes and the page is found there |
| AddrSpaces.EmptyTable | kern/vm/addrspace.c:53-59 | create_pagetable yields a well-formed zeroed table |
| AddrSpaces.PdIndex | kern/vm/addrspace.c:281 | the directory index is below 1024 |
| AddrSpaces.PtIndex | kern/vm/addrspace.c:282 | the table index is below 1024 |
| AddrSpaces.IndexSplit | kern/vm/addrspace.c:281-282 | the two indices and the offset recompose the address; two addresses share both indices exactly when they share a page |
| AddrSpaces.Lookup | kern/vm/addrspace.c:279-302 | the entry read is a u32 value |
| AddrSpaces.SetEntry | kern/vm/addrspace.c:305-320 | a write never links or unlinks a directory slot |
| AddrSpaces.Link | kern/vm/addrspace.c:287-295 | as_get_pt_entry leaves the address's slot linked |
| AddrSpaces.GetAfterSet | kern/vm/addrspace.c:305-320 | reading back gives the written value when the slot was linked, 0 when not; other pages are untouched |
| AddrSpaces.LinkKeepsLookup | kern/vm/addrspace.c:287-295 | linking a zeroed table changes no lookup |
| AddrSpaces.SetUnlinkedIsLost | kern/vm/addrspace.c:312-317 | a write under an empty slot goes into a table never linked, so it is lost |
| AddrSpaces.TableFrames | kern/vm/addrspace.c:153-158 | the addresses freed for a table are u32 kernel addresses |
| AddrSpaces.EntryFrames | kern/vm/addrspace.c:154-158 | one entry frees at most one address |
| AddrSpaces.DirFrames | kern/vm/addrspace.c:149-163 | the addresses freed for a directory are u32 kernel addresses |
| AddrSpaces.SlotFrames | kern/vm/addrspace.c:150-162 | the addresses freed for one slot are u32 kernel addresses |
| AddrSpaces.DestroyReadsFirstHundred | kern/vm/addrspace.c:149-153 | as_destroy reads only slots 0-9 and entries 0-9: directories agreeing there release the same frames |
| AddrSpaces.TableFramesPrefix | kern/vm/addrspace.c:153-158 | the frames freed for a table depend only on the entries visited |
| AddrSpaces.HighMappingsNeverReleased | kern/vm/addrspace.c:149 | a space mapping nothing below 40 MiB releases no frame at all |
| AddrSpaces.EmptyDirFrames | kern/vm/addrspace.c:152 | empty slots release nothing |
| AddrSpaces.Truncate | kern/vm/addrspace.c:119-126 | the partial copy is a well-formed directory |
| AddrSpaces.PartialCopyFreesParentFrames | kern/vm/addrspace.c:122-125 | destroying a partial copy frees frames the parent still maps, exactly the ones as_destroy would free from the parent |
| AddrSpaces.FirstUnfunded | kern/vm/addrspace.c:119-126 | the slot where as_copy's table allocation fails is a linked slot of the parent |
| AddrSpaces.AlignRegion | kern/vm/addrspace.c:212-218 | the aligned bounds stay in the u32 range |
| AddrSpaces.AlignRegionCovers | kern/vm/addrspace.c:212-218 | without wrap-around, the aligned region is the smallest run of whole pages covering the region |
| AddrSpaces.Place | kern/vm/addrspace.c:220-246 | the first region becomes code; a later one above the code becomes data; one below the code pushes code into data; the heap is empty at the top of the higher segment |
| AddrSpaces.PermissionShift | kern/vm/addrspace.c:209 | shifting right by 8 recovers the flags shifted in and drops the low defaults |
| AddrSpaces.RegionPermission | kern/vm/addrspace.c:209 | the region flags are stored above the low byte, which stays clear, and shifting right by 8 recovers them |
| AddrSpaces.DefineCodeThenCompleteLoad | kern/vm/addrspace.c:259-264 | defining code then completing the load leaves exactly the region's flags as the code permission |
| AddrSpaces.DefineDataThenCompleteLoad | kern/vm/addrspace.c:259-264 | the same for a data region above the code |
| AddrSpaces.AddrSpace.constructor | kern/vm/addrspace.c:68-94 | as_create: zeroed bounds, the stack below USERSTACK, every permission READABLE or WRITEABLE, no tables, zero counters |
| AddrSpaces.AddrSpace.IsValidAddress | kern/vm/addrspace.c:323-343 | valid exactly when the address lies in one of the four segments |
| AddrSpaces.AddrSpace.GetPermission | kern/vm/addrspace.c:346-366 | the permission of the first of code, data or stack that contains the address |
| AddrSpaces.AddrSpace.HeapPermissionInverted | kern/vm/addrspace.c:361-363 | the heap test is inverted: inside the heap gives 0, above the heap top gives the heap's permission for an invalid address |
| AddrSpaces.AddrSpace.AsDefineRegion | kern/vm/addrspace.c:205-248 | the new layout is Place of the aligned region with the shifted flags |
| AddrSpaces.AddrSpace.AsCompleteLoad | kern/vm/addrspace.c:259-264 | code and data permissions shifted right by 8 |
| AddrSpaces.AddrSpace.AsGetPtEntry | kern/vm/addrspace.c:279-302 | ENOMEM with nothing changed when an empty slot cannot get a table; otherwise the slot is linked and the old entry returned |
| AddrSpaces.AddrSpace.AsSetPtEntry | kern/vm/addrspace.c:305-320 | the directory becomes SetEntry's |
| AddrSpaces.AddrSpace.AsDestroy | kern/vm/addrspace.c:144-165 | slots 0-9 cleared, and the directory state is AfterFrees of DirFrames |
| AddrSpaces.AddrSpace.DestroySlot | kern/vm/addrspace.c:150-162 | one outer iteration extends the cleared prefix and the frees by one slot |
| AddrSpaces.AddrSpace.ReleaseSlot | kern/vm/addrspace.c:152-162 | a linked slot frees SlotFrames |
| AddrSpaces.AddrSpace.ReleaseTable | kern/vm/addrspace.c:153-159 | the inner loop frees TableFrames of entries 0-9 |
| AddrSpaces.AddrSpace.ReleaseEntry | kern/vm/addrspace.c:154-158 | one entry frees EntryFrames |
| AddrSpaces.AddrSpace.CopyTable | kern/vm/addrspace.c:131-135 | copying non-zero entries into a zeroed table gives the same table |
| AddrSpaces.AddrSpace.CloneBounds | kern/vm/addrspace.c:101-113 | the new space has all eight bounds of the old one and keeps as_create's other values: all four permissions READABLE and WRITEABLE, the four page counters 0, no table linked |
| AddrSpaces.AddrSpace.AsCopy | kern/vm/addrspace.c:97-141 | ENOMEM without a space; a full copy of bounds and tables, with the child's permissions and page counters as as_create leaves them; or, when a table fails, ENOMEM after freeing the partial copy's frames |
| AddrSpaces.AddrSpace.CopyDirectory | kern/vm/addrspace.c:119-137 | copies every table, or stops at FirstUnfunded with the truncated directory |
| VmOps.FrameBits | kern/vm/vm.c:452 | the masked frame bits have a zero page offset |
| VmOps.OrFrameKeepsFields | kern/vm/vm.c:456 | ORing page-aligned bits into a word keeps its low twelve bits and its FREE-ness |
| VmOps.OwnedWord | kern/vm/vm.c:456 | the reverse-map OR keeps the descriptor's fields and state |
| VmOps.OneFrame | kern/vm/vm.c:186-228 | acquire_one_page's frame is a directory index |
| VmOps.OneFrameInUse | kern/vm/vm.c:186-228 | that frame is never FREE afterwards |
| VmOps.AfterSwapout | kern/vm/vm.c:714-787 | swapout's effect on the frame directory: only a victim's word changes, to FREE, and nfreepages grows by one exactly when there is a victim; next_free stays |
| VmOps.AfterSwapin | kern/vm/vm.c:790-841 | swapin's effect on the frame directory: nothing changes with no free frame or no swap entry; otherwise no frame in use is touched and next_free stays a frame index |
| VmOps.AfterNewPage | kern/vm/vm.c:186-228 | acquire_one_page's claim with the fault address ORed in: only its frame changes, that frame is in use afterwards, and nfreepages drops by one exactly when a frame was FREE |
| VmOps.SwapinFrames | kern/vm/vm.c:427-430 | vm_fault's swapin call: SWAPIN_NO_MEM (which vm_fault turns into a panic) exactly when no frame is free, and the directory, nfreepages and next_free end as AfterSwapin says |
| VmOps.EntryLoDirtyIffWriteable | kern/vm/vm.c:476-492 | entrylo is always VALID, and has DIRTY (write-enable) exactly when the page is writeable |
| VmOps.KnownFault | kern/vm/vm.c:354-367 | the accepted fault types are exactly the codes 0, 1 and 2 (READ, WRITE, READONLY) |
| VmOps.Writeable | kern/vm/vm.c:468-474 | a page is non-writeable only inside the code or data segment; stack, heap and anything else are writeable |
| VmOps.EntryHi | kern/vm/vm.c:466 | for an aligned page and a pid below 64, entryhi holds the page in its upper bits and the pid in bits 6-11 |
| VmOps.EntryLo | kern/vm/vm.c:476-492 | entrylo keeps the page-table entry's frame bits |
| VmOps.MapPage | kern/vm/vm.c:433-462 | a zero entry gets acquire_one_page's frame marked PRESENT and DIRTY, that frame's word takes the fault address, nfreepages and next_free move as AfterNewPage says, and vpages grows by one; another entry becomes frame, PRESENT and USED with the allocator untouched |
| VmOps.FrameEntryIndex | kern/vm/vm.c:452-455 | an entry built from frame k and flag bits indexes frame k again |
| VmOps.MapNewPage | kern/vm/vm.c:433-458 | the zero-entry branch: the entry, the claimed frame with the fault address ORed in, the allocator state AfterNewPage gives, and vpages + 1 |
| VmOps.ClaimOwnedFrame | kern/vm/vm.c:435-456 | acquire_one_page's frame, with the fault address ORed into its word; directory, nfreepages and next_free as AfterNewPage gives |
| VmOps.MarkOwner | kern/vm/vm.c:456 | the OR rewrites only that word and keeps the counter exact |
| VmOps.FaultIn | kern/vm/vm.c:399-527 | ENOMEM from the table and a panic when swapin finds no free frame, both leaving the allocator and the TLB as they were; EPERM after the entry was rewritten; on success or EPERM the allocator is AfterSwapin and then, for a zero entry, AfterNewPage; success writes the mapping into the TLB slot InstallSlot picks and nothing else |
| VmOps.MapAndLoad | kern/vm/vm.c:433-524 | the entry update with the allocator state AfterNewPage gives for a zero entry (unchanged otherwise), then EPERM exactly for a write to a non-writeable page, else the TLB install in the slot InstallSlot picks |
| VmOps.VmFault | kern/vm/vm.c:349-527 | EINVAL, EFAULT and SIGSEGV change nothing; past them, ENOMEM exactly when the directory slot is empty and no table can be allocated (page table unchanged), a panic exactly when no frame is free and swapout found no victim, EPERM exactly for a write fault on a non-writeable page; on success or EPERM the entry is rewritten (the new frame with PRESENT and DIRTY and one more as_vpages for a zero entry, the old frame with PRESENT and USED otherwise); the allocator ends as AfterSwapout (when at most MIN_FREE_PAGES were free), then AfterSwapin, then AfterNewPage for a zero entry; success writes the page's mapping, with write-enable matching writeability, into the slot InstallSlot picks in the TLB as swapout left it, and every other slot stays; only the page table and as_vpages of the space change; when at most MIN_FREE_PAGES were free, the swap hand moves one step and the swap map becomes SwapoutSlots for the victim (the lowest unused slot records it, every other slot kept), otherwise the swap map and hand are unchanged; the counter stays exact |
| VmOps.SwapoutIfLow | kern/vm/vm.c:395-397 | swapout runs exactly when nfreepages is at most MIN_FREE_PAGES: the allocator becomes AfterSwapout, the swap hand moves one step, the swap map becomes SwapoutSlots for the victim (the lowest unused slot records it, every other slot kept) and, when a victim was found, the TLB is cleared; above the threshold nothing changes |
| VmOps.AllocKPages | kern/vm/vm.c:236-258 | one page via acquire_one_page (nfreepages down by one and next_free past the frame when one is FREE, both unchanged otherwise), any other count via acquire_pages (0 and nothing changed without a run, else the run's frames, nfreepages down by npages and next_free at the run's end); as_kpages grows by npages even on failure; a zero address stays 0 |
| VmOps.AllocRunThenFree | kern/vm/vm.c:245-290 | free_kpages on alloc_kpages's address restores the directory and the counter |
| VmOps.FreeMarkedRun | kern/vm/vm.c:269-290 | freeing from the base of a marked run restores both |
| VmOps.AllocOneThenFree | kern/vm/vm.c:245-290 | the single-page round trip restores both |
| VmOps.UnmaskedIndex | kern/vm/vm.c:316-321 | the unmasked index names the same frame as the masked one |
| VmOps.CopyCount | kern/vm/vm.c:316-321 | the number of copied entries is at most the number visited |
| VmOps.DuplicatePagetable | kern/vm/vm.c:301-342 | never fails; copied entries keep their flags on a new frame; with enough free frames, the copies are distinct formerly FREE frames and the counter drops by the copy count |
| VmOps.DupSlot | kern/vm/vm.c:316-336 | one iteration keeps the loop invariant |
| VmOps.CopyEntry | kern/vm/vm.c:323-336 | a copied entry keeps the loop invariant |
| VmOps.DupSkip | kern/vm/vm.c:316-321 | a skipped entry keeps the invariant |
| VmOps.DupSkipShape | kern/vm/vm.c:316-321 | a skipped entry keeps the child table's shape |
| VmOps.DupSkipFresh | kern/vm/vm.c:316-321 | a skipped entry keeps the copies fresh |
| VmOps.CopyCountMono | kern/vm/vm.c:316-321 | the copy count grows with the index |
| VmOps.DupEntry | kern/vm/vm.c:323-336 | the new entry is the new frame plus the parent's low bits, and the parent frame's word is copied onto it |
| VmOps.DupEntryStep | kern/vm/vm.c:323-336 | the invariant survives one copied entry |
| VmOps.DupAmpleStep | kern/vm/vm.c:323-336 | with spare frames, the copy lands on a fresh frame and the counter drops by one |
| VmOps.DupAmpleCount | kern/vm/vm.c:323 | with spare frames, acquire_one_page finds a FREE frame |
| VmOps.DupAmpleFresh | kern/vm/vm.c:335-336 | copying onto a just-claimed FREE frame keeps the copies distinct |
| VmOps.DupCountStep | kern/vm/vm.c:323-336 | while parent frames are in use, the counter stays exact |
| VmOps.CopyKeepsFreeZero | kern/vm/vm.c:335-336 | copying a word keeps FREE words zero |
| VmOps.DupShapeStep | kern/vm/vm.c:334 | the child table's shape after one more copy |
| VmOps.ParentInUseUpdate | kern/vm/vm.c:335-336 | writing an in-use word keeps parent frames in use |
| VmOps.DupFreshStep | kern/vm/vm.c:335-336 | one more copy onto a FREE frame keeps the copies fresh |
| VmOps.CopyDescriptor | kern/vm/vm.c:335-336 | the word is copied, and the counter stays exact when the source is in use |
| VmOps.CopyFreeDescriptorMiscounts | kern/vm/vm.c:335-336 | copying a FREE parent word onto the claimed frame frees it again while the counter stays decremented |
| VmOps.HeapPage | kern/vm/vm.c:569 | the heap page address stays in the u32 range |
| VmOps.HeapPageNext | kern/vm/vm.c:569 | one more PAGE_SIZE step is the next heap page |
| VmOps.HeapPagesApart | kern/vm/vm.c:554-570 | fewer than 2^20 heap pages lie in distinct pages |
| VmOps.HeapWord | kern/vm/vm.c:561 | the heap word is in use and has ALLOC_END, DIRTY, USE and the owner |
| VmOps.AllocSbrkPages | kern/vm/vm.c:530-585 | nothing changes when nfreepages is at most npages; otherwise the heap top moves up npages pages; every page outside the npages new heap pages keeps its entry; when the counter was exact it drops by npages and each page whose directory slot is linked maps to a distinct formerly FREE frame (a page under an unlinked slot loses its entry, as as_set_pt_entry never links); the TLB is invalidated |
| VmOps.SbrkLoop | kern/vm/vm.c:554-570 | the loop keeps SbrkInv and ends npages pages up |
| VmOps.SbrkSlot | kern/vm/vm.c:556-569 | one page keeps SbrkInv |
| VmOps.SbrkInvStart | kern/vm/vm.c:551-553 | the invariant holds before the loop |
| VmOps.SbrkPage | kern/vm/vm.c:556-565 | the page's frame gets the heap word, and its entry is set to frame, PRESENT and DIRTY |
| VmOps.SbrkStep | kern/vm/vm.c:556-569 | the invariant survives one page |
| VmOps.SbrkMapStep | kern/vm/vm.c:556-565 | earlier pages' mappings survive one page |
| VmOps.SbrkApartStep | kern/vm/vm.c:556-565 | the new page's frame differs from the earlier pages' frames |
| VmOps.FreedTop | kern/vm/vm.c:608 | the lowered heap top is a u32 value |
| VmOps.HeapTopRoundTrip | kern/vm/vm.c:608 | raising then lowering the heap top by npages pages, or the reverse, gives it back |
| VmOps.HeapFrames | kern/vm/vm.c:612-613 | the frames freed are the ones the heap pages' entries name |
| VmOps.ClearFrames | kern/vm/vm.c:616-617 | clearing keeps the directory size |
| VmOps.ClearFramesAt | kern/vm/vm.c:616-617 | exactly the listed frames read PP_FREE |
| VmOps.ClearFramesCount | kern/vm/vm.c:616-622 | clearing distinct in-use frames raises the free count by their number |
| VmOps.FreeOfFreeFrameOvercounts | kern/vm/vm.c:617-622 | clearing an already FREE frame leaves the free count unchanged, though nfreepages still grows |
| VmOps.ZeroEntryUnmanaged | kern/vm/vm.c:613 | an entry of 0 indexes past the directory |
| VmOps.ZeroPages | kern/vm/vm.c:620 | zeroing entries links no slot |
| VmOps.ZeroPagesLookup | kern/vm/vm.c:620 | the zeroed pages read 0 and every other page reads as before |
| VmOps.FreeSbrkPages | kern/vm/vm.c:588-635 | the heap top drops npages pages; their frames become PP_FREE; their entries become 0; nfreepages grows by npages |
| VmOps.FreeLoop | kern/vm/vm.c:611-624 | the loop leaves FreeVals and ZeroPages |
| VmOps.FreeSlot | kern/vm/vm.c:612-623 | one page keeps the invariant and zeroes its entry |
| VmOps.ZeroPagesStep | kern/vm/vm.c:620 | zeroing extends by one page |
| VmOps.FreeLookupUnchanged | kern/vm/vm.c:612 | an unvisited page's entry is the original |
| VmOps.FreeHeapPage | kern/vm/vm.c:612-622 | one page: its frame becomes PP_FREE, the counter grows by one, the entry is zeroed |
| VmOps.FreeStep | kern/vm/vm.c:612-622 | the invariant survives one page |
| VmOps.ClearFramesStep | kern/vm/vm.c:616-617 | clearing extends by one frame |
| VmOps.SbrkFreeRoundTrip | kern/vm/vm.c:530-635 | freeing the pages just allocated restores the heap top, names only managed frames, and raises the free count by exactly npages |
| Sbrk.Signed32 | kern/syscall/sbrk_syscall.c:50 | `(int32_t)` reads a word as two's complement |
| Sbrk.SbrkCheck | kern/syscall/sbrk_syscall.c:20-47 | sys_sbrk's checks in order; a rejection is EINVAL or ENOMEM, and an accepted new top lies at or above the heap base, at or below the stack base and below the stack top |
| Sbrk.SbrkCheckBounds | kern/syscall/sbrk_syscall.c:20-47 | a call is accepted exactly when the amount is a page multiple and the new top is inside the heap's bounds; the new top is the old one moved modulo 2^32 |
| Sbrk.GrowThenShrink | kern/syscall/sbrk_syscall.c:20-47 | an accepted growth is undone by the matching shrink |
| Sbrk.ShrinkThenGrow | kern/syscall/sbrk_syscall.c:20-47 | an accepted shrink is undone by the matching growth |
| Sbrk.ShrinkPages | kern/syscall/sbrk_syscall.c:60 | the page count for a shrink is a u32 value |
| Sbrk.ShrinkPagesTop | kern/syscall/sbrk_syscall.c:60 | lowering by that page count lands on the moved top |
| Sbrk.GrowPagesTop | kern/syscall/sbrk_syscall.c:57 | raising by amount / PAGE_SIZE pages lands on the moved top |
| Sbrk.SysSbrk | kern/syscall/sbrk_syscall.c:16-73 | errors return -1 and change nothing; otherwise it returns the old top, and the heap top moves, except that a growth without enough free frames succeeds unmoved |
| FileTables.FtFileCreate | kern/syscall/filetable.c:71-90 | null exactly when allocation fails; otherwise a fresh handle with offset 0 and one reference |
| FileTables.DecreFtFile | kern/syscall/filetable.c:139-148 | drops one reference, and destroys the handle exactly when none is left |
| FileTables.Probe | kern/syscall/filetable.c:114-124 | the search stays in the table, above its start or in the slots from 3 up |
| FileTables.NextFid | kern/syscall/filetable.c:119-122 | the next slot probed stays in the table and is either the following slot or slot 3 after the wrap |
| FileTables.DistStep | kern/syscall/filetable.c:119-122 | each step shortens the distance to every later slot by one |
| FileTables.ProbeReachesEmpty | kern/syscall/filetable.c:114-124 | with enough probes, the search ends on an empty slot whenever one lies on its path |
| FileTables.ProbeFirstFit | kern/syscall/filetable.c:114-124 | every slot the search passes is occupied |
| FileTables.ProbeMissesLowSlots | kern/syscall/filetable.c:120-125 | with slots 3 and up full, the search ends on an occupied slot, which is then overwritten |
| FileTables.FiletableCreate | kern/syscall/filetable.c:13-31 | null exactly when allocation fails; otherwise an empty table |
| FileTables.Count | kern/syscall/filetable.c:38-46 | a handle occupies at most every slot |
| FileTables.FiletableDup | kern/syscall/filetable.c:34-48 | the new table shares every handle at the same index, and each handle gains one reference per slot holding it |
| FileTables.DupSlot | kern/syscall/filetable.c:39-45 | one slot is shared and gains a reference |
| FileTables.FiletableDestroy | kern/syscall/filetable.c:151-163 | each handle loses one reference per slot holding it, and is destroyed exactly when none is left |
| FileTables.FtFile.constructor | kern/syscall/filetable.c:79-82 | offset 0, the flags, one reference |
| FileTables.FileTable.constructor | kern/syscall/filetable.c:24-28 | every slot empty, nothing opened, the search at 0 |
| FileTables.FileTable.AddFtFile | kern/syscall/filetable.c:107-136 | EMFILE with nothing changed at OPEN_MAX; otherwise stores the handle at Probe's slot, returns that slot and starts the next search after it |
| FileTables.FileTable.SearchFree | kern/syscall/filetable.c:114-124 | the search loop stops where Probe does |
| FileTables.FileTable.InitStdio | kern/syscall/filetable.c:51-68 | slot 0 is read-only on one vnode; slots 1 and 2 are distinct write-only handles on a second; each handle that was allocated is newly allocated, so no slot shares a handle with another table; the count and search start become 3 |
| ProcTables.FirstOverrun | kern/syscall/proctable.c:13-14 | the first index the bootstrap loop writes past an array's end lies in the loop's range and past the end; none only when the loop stays inside |
| ProcTables.FirstOverrunAt | kern/syscall/proctable.c:13-14 | the loop writes out of bounds exactly when it runs past the array, first at the array's length or its start |
| ProcTables.BootstrapOverrunsDeclared | kern/syscall/proctable.c:13-14 | over the PID_MAX slots the header declares, bootstrap first writes out of bounds at index PID_MAX; over PID_MAX + 1 slots every write is in bounds |
| ProcTables.Proc.constructor | kern/syscall/proctable.c:30 | a process with the given pid |
| ProcTables.ProcTable.constructor | kern/syscall/proctable.c:6-22 | bootstrap with PID_MAX + 1 slots: every slot empty, the search at PID_MIN |
| ProcTables.ProcTable.AssignPid | kern/syscall/proctable.c:25-58 | the process takes the first empty pid in circular order from next_pid, and next_pid becomes that pid + 1; ENPROC with nothing changed only when every user pid is taken |
| ProcTables.ProcTable.AssignKernPid | kern/syscall/proctable.c:61-65 | the process takes slot KERN_PID, whatever was there |
| ProcTables.ProcTable.UnassignPid | kern/syscall/proctable.c:68-74 | empties the process's slot and sets its pid to -1 |

## Left out

- Locks, spinlocks, `splhigh` and the global VM lock are not modelled: each operation runs alone.
- kmalloc and kfree are not modelled.
  - A failing allocation is a boolean or budget parameter: `allocOk`, `asAllocOk` and `tableBudget`.
  - Freeing memory appears only as the `destroyed` flag of a file handle.
- `ram_getsize` and `ram_stealmem` are not modelled. vm_bootstrap's frame count and base
  address are constructor parameters, so alloc_kpages's path before bootstrap is not modelled.
- Page contents are not modelled: swap-file reads and writes (`uio_kinit`, `VOP_READ`,
  `VOP_WRITE`), `memcpy`, `bzero` of a page, `kprintf` and the panic on a failed swap write.
- The TLB hardware is an array. `tlb_random`'s slot choice is a parameter, and `splx` is not modelled.
- The current process is a parameter: its pid, its shifted pid and its address space.
  vm_fault dereferences `curproc` before testing it for NULL. The model cannot express that
  dereference, so it takes the pid as given.
- Functions that do nothing or only delegate are not modelled:
  - `vm_tlbshootdown` has an empty body;
  - `as_deactivate` and `as_prepare_load` do nothing;
  - `as_define_stack` only stores USERSTACK;
  - `as_activate` only calls vm_tlbinvalidate (Tlb.Tlb.Invalidate).
- `ft_file_destroy`'s `vfs_close` and `lock_destroy` are the `destroyed` flag. `init_stdio`'s
  `vfs_open` results are parameters.
- `proctable_get_proc` is the function ProcTables.ProcTable.GetProc. It has no contract of its
  own.
- Some header values come from files outside this model. The values assumed here are:
  - OPEN_MAX 128;
  - PT_PRESENT, PT_DIRTY and PT_USED 1, 2 and 4;
  - AS_EXECUTABLE, AS_WRITEABLE and AS_READABLE 1, 2 and 4;
  - NUM_PTE 1024 and PFN_BITS 10;
  - USERSTACK 0x80000000;
  - the MIPS kseg0 base 0x80000000, used by Common.KvaddrToPaddr and Common.PaddrToKvaddr for
    KVADDR_TO_PADDR and PADDR_TO_KVADDR;
  - the MIPS TLBLO_VALID and TLBLO_DIRTY bits.

  PID_MIN, PID_MAX, KERN_PID and STACK_SIZE are parameters.
- Coremap.PhysMem.Valid assumes three facts about vm_bootstrap's values (kern/vm/vm.c:66-67),
  since ram_stealmem and ram_getsize are not modelled: the base address `user_base_addr` is
  positive, it is a multiple of PAGE_SIZE, and the managed frames end at or below 2^32.
- AddrSpaces.AddrSpace.AsSetPtEntry does not model a failing create_pagetable: the source then
  panics on `KASSERT(pt != NULL)` (kern/vm/addrspace.c:313-316), and the model assumes the
  allocation succeeds. The table it creates is never linked, so the write is lost either way.
- VmOps.FreeSbrkPages requires that every page being freed maps a managed frame, and at most
  2^20 pages. free_sbrk_pages checks neither: an unmapped page would write past the directory.
- Swap.SwapMap.Swapout and VmOps.VmFault assume the scan ends and a swap slot is free. Without
  those assumptions swapout loops forever (the hand past the last frame, no victim) or indexes
  NO_SWAP_IDX.
- Sbrk.SysSbrk requires what free_sbrk_pages needs on a shrink. That requirement excludes
  INT32_MIN, whose page count wraps. Its contract states the heap top and return value; the
  page-level effects are those of AllocSbrkPages and FreeSbrkPages.
- ProcTables.ProcTable.AssignPid requires next_pid not to have passed PID_MAX, because the
  source never wraps it after a success. It also requires slot PID_MAX to be empty when
  next_pid is PID_MAX, because the search would read past the table.
- ProcTables.ProcTable.UnassignPid requires the pid to index the table. After an earlier
  unassign the source would index slot -1.
- FileTables.DecreFtFile and FileTables.FiletableDestroy require a live handle whose count
  covers its slots. The source would otherwise use freed memory.
- AddrSpaces.AddrSpace's `kpages`, `vpages` and the two release counters are unbounded
  integers, while the C fields are 32-bit. VmOps.MapPage, VmOps.AllocKPages and their callers
  state `+ 1` and `+ npages` without the wrap past 2^32.
- VmOps.AllocSbrkPages does not state next_free after the loop. It is the cursor past the
  last frame acquire_one_page claimed, which depends on every earlier claim in turn.
- VmOps.DuplicatePagetable states freshness and the exact count only when the parent's frames
  are in use and enough frames are free. Otherwise it states the child table's shape and that
  FREE words stay zero.

## Findings

| source | as written | input that shows it | evidently intended | confidence | as-written member | corrected member |
|---|---|---|---|---|---|---|
| kern/include/proctable.h:10 | `proc_entries` is declared with PID_MAX slots, but proctable_bootstrap (kern/syscall/proctable.c:13-14) writes indices 0 through PID_MAX, and assign_pid can hand out PID_MAX | any PID_MAX: bootstrap's last iteration, i = PID_MAX, writes one slot past the array (FirstOverrun gives Some(PID_MAX)) | PID_MAX + 1 slots, one per pid from 0 to PID_MAX | not executed | ProcTables.BootstrapOverrunsDeclared | ProcTables.ProcTable.constructor |

The model also states, as written, other behaviours that look unintended. It gives no corrected
version of them, so they are listed here rather than in the table:
- AddrSpaces.AddrSpace.HeapPermissionInverted: the heap test is `>= as_heap_top`, so a heap
  page gets no permission and an address above the top gets the heap's (kern/vm/addrspace.c:361-363).
- AddrSpaces.SetUnlinkedIsLost: as_set_pt_entry never links the table it creates, so a write
  under an empty directory slot is lost.
- VmOps.CopyFreeDescriptorMiscounts: duplicate_pagetable copies a FREE parent word without
  adjusting nfreepages.
- VmOps.FreeOfFreeFrameOvercounts: free_sbrk_pages raises nfreepages even for a frame that was
  already FREE.
- FileTables.ProbeMissesLowSlots: add_ft_file's probe wraps to 3, so with slots 3 and up full
  it overwrites an occupied slot.
- Swap.SwapinPidFourIsFixed: swapin ORs in the unshifted pid, so process 4's frame reads FIXED.
- vm_fault's EPERM return (kern/vm/vm.c:481-482) releases only the global lock; the coremap
  and address-space spinlocks taken earlier stay held. Locks are not modelled, so no member
  shows this.
- free_sbrk_pages (kern/vm/vm.c:588-635) never invalidates the TLB, so a stale mapping to a
  freed frame stays usable. VmOps.FreeSbrkPages takes no TLB, and its frame leaves the TLB
  as it was, while VmOps.AllocSbrkPages invalidates it.
- Coremap.RunScanNoneIff: acquire_pages misses runs that end on the last frame or straddle the
  cursor.
- Swap.SwapoutEntryNeverFound: swapin never finds what swapout recorded.
- proctable_assign_pid never wraps next_pid after a success (kern/syscall/proctable.c:31, 44),
  so handing out PID_MAX leaves next_pid at PID_MAX + 1. The next call then reads
  `proc_entries[PID_MAX + 1]`, one past the table (kern/syscall/proctable.c:28). With every
  pid taken, the probe loop wraps to PID_MIN before it can reach start_pid = PID_MAX + 1
  (kern/syscall/proctable.c:50-53), so it never ends. ProcTables.ProcTable.AssignPid
  requires next_pid to be at most PID_MAX, so no member shows this.
