/** The fault handler and the page operations built on the frame directory, the swap map,
    the TLB and the address space: alloc_kpages, duplicate_pagetable, vm_fault and the two
    heap-page operations behind sbrk. Locks are not modelled: every operation runs alone. */
module VmOps {
  import opened Common
  import opened VmDefs
  import opened Coremap
  import opened Swap
  import opened AddrSpaces
  import Tlb

  /** What vm_fault ends with: 0, an error code, or a kernel panic. */
  datatype FaultResult = Done | Fail(err: Errno) | Panic

  const PAGE_FRAME: bv32 := 0xFFFF_F000

  /** `x & PAGE_FRAME` as a 32-bit word. */
  function FrameBits(x: int): (r: bv32)
    requires IsU32(x)
    ensures r & 0xFFF == 0
  {
    ToWord(x) & PAGE_FRAME
  }

  /** ORing page-aligned bits into a descriptor leaves its low twelve bits, and so its owner,
      USE, ALLOC_END, state and permission fields, as they were. */
  lemma OrFrameKeepsFields(w: bv32, y: bv32)
    requires y & 0xFFF == 0
    ensures (w | y) & 0xFFF == w & 0xFFF
    ensures IsPpageFree(w | y) == IsPpageFree(w)
  {
  }

  /** A descriptor with the page-aligned bits of fa ORed in: a frame's reverse-map entry. */
  function OwnedWord(w: bv32, fa: int): (r: bv32)
    requires IsU32(fa)
    ensures r & 0xFFF == w & 0xFFF
    ensures IsPpageFree(r) == IsPpageFree(w)
  {
    OrFrameKeepsFields(w, FrameBits(fa));
    w | FrameBits(fa)
  }

  /** The frame acquire_one_page hands out: the first FREE frame from the cursor, circularly,
      or the cursor's own frame when none is FREE. */
  function OneFrame(cm: seq<bv32>, cursor: nat): (k: nat)
    requires cursor < |cm|
    ensures k < |cm|
  {
    ScanFreeSpec(cm, cursor, 0);
    match ScanFree(cm, cursor, 0)
    case Some(k) => k
    case None => cursor
  }

  /** The descriptor of that frame once acquire_one_page has run. */
  function OneFrameWord(cm: seq<bv32>, cursor: nat, pb: bv32): bv32
    requires cursor < |cm| && pb & 0x3F == 0
  {
    if ScanFree(cm, cursor, 0).Some? then AllocWord(pb, true) else cm[OneFrame(cm, cursor)]
  }

  /** The frame acquire_one_page returns is never FREE afterwards: it was claimed, or every
      frame was in use. */
  lemma OneFrameInUse(cm: seq<bv32>, cursor: nat, pb: bv32)
    requires cursor < |cm| && pb & 0x3F == 0
    ensures !IsPpageFree(OneFrameWord(cm, cursor, pb))
  {
    ScanFreeNoneIffFull(cm, cursor);
  }

  /** The frame allocator's state as a value: the descriptors, nfreepages and next_free. */
  datatype Frames = Frames(cm: seq<bv32>, free: int, cursor: nat)

  /** The allocator state of pm. */
  function FramesOf(pm: PhysMem): Frames
    reads pm, pm.coremap
  {
    Frames(pm.coremap[..], pm.nfreepages, pm.nextFree)
  }

  /** The allocator state after swapout: the victim's descriptor becomes PP_FREE and
      nfreepages grows by one; without a victim nothing changes. next_free stays. */
  function AfterSwapout(f: Frames, clock: int): (g: Frames)
    requires IsU32(clock) && 0 < |f.cm| && IsU32(f.free)
    ensures |g.cm| == |f.cm| && g.cursor == f.cursor && IsU32(g.free)
    ensures forall j :: 0 <= j < |f.cm| && g.cm[j] != f.cm[j] ==> IsVictim(f.cm[j]) && IsPpageFree(g.cm[j])
    ensures g.free == if Victim(f.cm, clock).Some? then Wrap32(f.free + 1) else f.free
  {
    match Victim(f.cm, clock)
    case None => f
    case Some(v) => Frames(f.cm[v := PP_FREE], Wrap32(f.free + 1), f.cursor)
  }

  /** The allocator state after a swapin that did not fail for lack of memory: unchanged when
      nfreepages is 0 or the page has no swap slot (found); otherwise the first FREE frame
      from next_free takes the swapin descriptor and next_free moves past it, and with none
      FREE only next_free moves on. */
  function AfterSwapin(f: Frames, found: bool, pid: bv32): (g: Frames)
    requires f.cursor < |f.cm| && IsU32(f.free)
    ensures |g.cm| == |f.cm| && g.cursor < |g.cm| && IsU32(g.free)
    ensures !found || f.free == 0 ==> g == f
    ensures forall j :: 0 <= j < |f.cm| && !IsPpageFree(f.cm[j]) ==> g.cm[j] == f.cm[j]
  {
    if !found || f.free == 0 then f
    else match ScanFree(f.cm, f.cursor, 0)
      case None => Frames(f.cm, f.free, if f.cursor + 1 >= |f.cm| then 0 else f.cursor + 1)
      case Some(k) => Frames(f.cm[k := SwapinWord(pid)], Wrap32(f.free - 1), if k + 1 >= |f.cm| then 0 else k + 1)
  }

  /** The allocator state after vm_fault's zero-entry branch: acquire_one_page's claim of the
      first FREE frame from next_free (with none FREE, nothing but the cursor's frame is
      touched), with fa ORed into the descriptor of the frame returned. Only that frame
      changes, it is in use afterwards, and nfreepages drops by one exactly when a frame was
      FREE. */
  function AfterNewPage(f: Frames, fa: int, pid: bv32): (g: Frames)
    requires f.cursor < |f.cm| && IsU32(f.free) && IsU32(fa)
    ensures |g.cm| == |f.cm| && g.cursor < |g.cm| && IsU32(g.free)
    ensures var k := OneFrame(f.cm, f.cursor);
      !IsPpageFree(g.cm[k]) && forall j :: 0 <= j < |f.cm| && j != k ==> g.cm[j] == f.cm[j]
    ensures g.free == if ScanFree(f.cm, f.cursor, 0).Some? then Wrap32(f.free - 1) else f.free
  {
    var k := OneFrame(f.cm, f.cursor);
    OneFrameInUse(f.cm, f.cursor, pid << 6);
    var cm := f.cm[k := OwnedWord(OneFrameWord(f.cm, f.cursor, pid << 6), fa)];
    match ScanFree(f.cm, f.cursor, 0)
    case None => Frames(cm, f.free, f.cursor)
    case Some(j) => Frames(cm, Wrap32(f.free - 1), if j + 1 >= |f.cm| then 0 else j + 1)
  }

  /** vm_fault's writability test on the page-aligned address: the AS_WRITEABLE bit of the
      code or data segment containing it, and true anywhere else. */
  function Writeable(space: AddrSpace, a: int): (w: bool)
    reads space
    ensures !w ==> space.InSegment(Code, a) || space.InSegment(Data, a)
  {
    if space.InSegment(Code, a) then space.codePerm & AS_WRITEABLE != 0
    else if space.InSegment(Data, a) then space.dataPerm & AS_WRITEABLE != 0
    else true
  }

  /** entryhi: the page address ORed with `pid << 6`. */
  function EntryHi(fa: int, pid: bv32): (r: bv32)
    requires IsU32(fa)
    ensures ToWord(fa) & 0xFFF == 0 && pid < 64 ==>
      r & PAGE_FRAME == ToWord(fa) && (r >> 6) & 0x3F == pid && r & 0x3F == 0
  {
    var w := ToWord(fa);
    EntryHiFields(w, pid);
    w | (pid << 6)
  }

  /** An aligned page and a pid below 64 occupy disjoint bits of entryhi. */
  lemma EntryHiFields(w: bv32, pid: bv32)
    ensures w & 0xFFF == 0 && pid < 64 ==>
      (w | (pid << 6)) & PAGE_FRAME == w && ((w | (pid << 6)) >> 6) & 0x3F == pid
      && (w | (pid << 6)) & 0x3F == 0
  {
  }

  /** entrylo: the frame with VALID, and DIRTY (hardware write-enable) when writeable. */
  function EntryLo(frame: int, writeable: bool): (r: bv32)
    requires IsU32(frame)
    ensures r & PAGE_FRAME == FrameBits(frame)
  {
    FrameBits(frame) | Tlb.TLBLO_VALID | (if writeable then Tlb.TLBLO_DIRTY else 0)
  }

  /** A read or read-only fault is always allowed; a write fault only on a writeable page. */
  lemma EntryLoDirtyIffWriteable(frame: int, writeable: bool)
    requires IsU32(frame)
    ensures EntryLo(frame, writeable) & Tlb.TLBLO_DIRTY != 0 <==> writeable
    ensures EntryLo(frame, writeable) & Tlb.TLBLO_VALID != 0
  {
  }

  /** The fault types vm_fault accepts. */
  predicate KnownFault(faulttype: int)
    ensures KnownFault(faulttype) <==> 0 <= faulttype <= 2
  {
    faulttype == VM_FAULT_READONLY || faulttype == VM_FAULT_READ || faulttype == VM_FAULT_WRITE
  }

  /** The entry-installing middle of vm_fault for the page-aligned address fa whose entry was
      pte. A zero entry gets a frame from acquire_one_page (whose failure check is dead: it
      never returns 0), the entry frame|PRESENT|DIRTY, one more as_vpages, and fa ORed into
      the frame's descriptor; any other entry is rewritten as frame|PRESENT|USED. */
  method MapPage(pm: PhysMem, space: AddrSpace, fa: int, pte: int, pid: bv32) returns (npte: int)
    requires pm.Valid() && space.Valid() && IsU32(fa) && IsU32(pte)
    modifies pm`nfreepages, pm`nextFree, pm.coremap, space`pagedir, space`vpages
    ensures pm.Valid() && space.Valid() && IsU32(npte)
    ensures space.pagedir == SetEntry(old(space.pagedir), fa, npte)
    ensures pte == 0 ==>
      npte % PAGE_SIZE == PT_PRESENT_MASK + PT_DIRTY_MASK && space.vpages == old(space.vpages) + 1
      && pm.FrameIndexOf(npte) < pm.lastPage && !IsPpageFree(pm.coremap[pm.FrameIndexOf(npte)])
    ensures pte == 0 ==>
      var cm := old(pm.coremap[..]);
      var k := OneFrame(cm, old(pm.nextFree));
      npte == pm.FrameAddr(k) + PT_PRESENT_MASK + PT_DIRTY_MASK && pm.FrameIndexOf(npte) == k
      && pm.coremap[..] == cm[k := OwnedWord(OneFrameWord(cm, old(pm.nextFree), pid << 6), fa)]
      && FramesOf(pm) == AfterNewPage(old(FramesOf(pm)), fa, pid)
    ensures pte != 0 ==>
      npte == PageFrame(pte) + PT_PRESENT_MASK + PT_USED_MASK
      && npte % PAGE_SIZE == PT_PRESENT_MASK + PT_USED_MASK
      && pm.coremap[..] == old(pm.coremap[..]) && pm.nfreepages == old(pm.nfreepages)
      && pm.nextFree == old(pm.nextFree) && space.vpages == old(space.vpages)
    ensures old(pm.Counted()) ==> pm.Counted()
    ensures old(FreeIsZero(pm.coremap[..])) ==> FreeIsZero(pm.coremap[..])
  {
    if pte == 0 {
      ghost var cm0 := pm.coremap[..];
      ghost var cursor := pm.nextFree;
      npte := MapNewPage(pm, space, fa, pid);
      OneFrameInUse(cm0, cursor, pid << 6);
    } else {
      npte := PageFrame(pte) + PT_PRESENT_MASK + PT_USED_MASK;
      space.AsSetPtEntry(fa, npte);
    }
  }

  /** A page-table entry built from a frame's address and flag bits below the page size
      names that frame again. */
  lemma FrameEntryIndex(pm: PhysMem, k: nat, flags: int)
    requires pm.Valid() && k < pm.lastPage && 0 <= flags < PAGE_SIZE
    ensures IsU32(pm.FrameAddr(k)) && PageFrame(pm.FrameAddr(k)) == pm.FrameAddr(k)
    ensures IsU32(pm.FrameAddr(k) + flags) && pm.FrameIndexOf(pm.FrameAddr(k) + flags) == k
    ensures (pm.FrameAddr(k) + flags) % PAGE_SIZE == flags
  {
    pm.FrameIndexOfAddr(k, 0);
    pm.FrameIndexOfAddr(k, flags);
  }

  /** The zero-entry branch of vm_fault: a frame from acquire_one_page, the entry
      frame|PRESENT|DIRTY, one more as_vpages, and fa ORed into the frame's descriptor. */
  method MapNewPage(pm: PhysMem, space: AddrSpace, fa: int, pid: bv32) returns (npte: int)
    requires pm.Valid() && space.Valid() && IsU32(fa)
    modifies pm`nfreepages, pm`nextFree, pm.coremap, space`pagedir, space`vpages
    ensures pm.Valid() && space.Valid() && IsU32(npte)
    ensures space.pagedir == SetEntry(old(space.pagedir), fa, npte)
    ensures var cm := old(pm.coremap[..]);
      var k := OneFrame(cm, old(pm.nextFree));
      npte == pm.FrameAddr(k) + PT_PRESENT_MASK + PT_DIRTY_MASK
      && pm.FrameIndexOf(npte) == k
      && pm.coremap[..] == cm[k := OwnedWord(OneFrameWord(cm, old(pm.nextFree), pid << 6), fa)]
      && space.vpages == old(space.vpages) + 1
    ensures FramesOf(pm) == AfterNewPage(old(FramesOf(pm)), fa, pid)
    ensures old(pm.Counted()) ==> pm.Counted()
    ensures old(FreeIsZero(pm.coremap[..])) ==> FreeIsZero(pm.coremap[..])
  {
    ghost var k := OneFrame(pm.coremap[..], pm.nextFree);
    var ppage := ClaimOwnedFrame(pm, fa, pid);
    FrameEntryIndex(pm, k, PT_PRESENT_MASK + PT_DIRTY_MASK);
    space.vpages := space.vpages + 1;
    // the flag bits lie below the page-aligned frame, so ORing them adds them
    npte := PageFrame(ppage) + PT_PRESENT_MASK + PT_DIRTY_MASK;
    space.AsSetPtEntry(fa, npte);
  }

  /** acquire_one_page for the faulting process, then `_coremap[cmidx] |= faultaddress` on
      the frame it returned. */
  method ClaimOwnedFrame(pm: PhysMem, fa: int, pid: bv32) returns (ppage: int)
    requires pm.Valid() && IsU32(fa)
    modifies pm`nfreepages, pm`nextFree, pm.coremap
    ensures pm.Valid()
    ensures var cm := old(pm.coremap[..]);
      var k := OneFrame(cm, old(pm.nextFree));
      ppage == pm.FrameAddr(k)
      && pm.coremap[..] == cm[k := OwnedWord(OneFrameWord(cm, old(pm.nextFree), pid << 6), fa)]
    ensures FramesOf(pm) == AfterNewPage(old(FramesOf(pm)), fa, pid)
    ensures old(pm.Counted()) ==> pm.Counted()
    ensures old(FreeIsZero(pm.coremap[..])) ==> FreeIsZero(pm.coremap[..])
  {
    ghost var cm0 := pm.coremap[..];
    ghost var cursor := pm.nextFree;
    var pb: bv32 := pid << 6;
    ppage := pm.AcquireOnePage(pb);
    ghost var k := OneFrame(cm0, cursor);
    assert ppage == pm.FrameAddr(k);
    assert pm.coremap[..] == cm0[k := OneFrameWord(cm0, cursor, pb)];
    pm.FrameIndexOfAddr(k, 0);
    var cmidx := pm.FrameIndexOf(ppage);
    OneFrameInUse(cm0, cursor, pb);
    MarkOwner(pm, cmidx, fa);
  }

  /** `_coremap[cmidx] |= faultaddress` for a frame in use: the descriptor keeps its fields. */
  method MarkOwner(pm: PhysMem, cmidx: nat, fa: int)
    requires pm.Valid() && cmidx < pm.lastPage && IsU32(fa) && !IsPpageFree(pm.coremap[cmidx])
    modifies pm.coremap
    ensures pm.coremap[..] == old(pm.coremap[..])[cmidx := OwnedWord(old(pm.coremap[cmidx]), fa)]
    ensures old(pm.Counted()) ==> pm.Counted()
    ensures old(FreeIsZero(pm.coremap[..])) ==> FreeIsZero(pm.coremap[..])
  {
    ghost var cm0 := pm.coremap[..];
    pm.coremap[cmidx] := OwnedWord(pm.coremap[cmidx], fa);
    CountFreeUpdate(cm0, cmidx, pm.coremap[cmidx]);
  }

  /** The part of vm_fault after faultaddress is page-aligned: as_get_pt_entry (its error is
      returned), swapin (SWAPIN_NO_MEM panics, SWAPIN_NOT_FOUND is ignored), the entry update,
      the writability test and the TLB write. The EPERM return comes after the page-table
      entry was rewritten, so it is not undone. */
  method FaultIn(pm: PhysMem, sw: SwapMap, tlb: Tlb.Tlb, space: AddrSpace, faulttype: int, a: int,
                 pid: bv32, allocOk: bool, randomSlot: nat) returns (r: FaultResult)
    requires pm.Valid() && sw.Valid() && tlb.Valid() && space.Valid()
    requires IsU32(a) && PageFrame(a) == a && randomSlot < Tlb.NUM_TLB
    modifies pm`nfreepages, pm`nextFree, pm.coremap, tlb`entries, space`pagedir, space`vpages
    ensures pm.Valid() && tlb.Valid() && space.Valid()
    ensures old(space.pagedir)[PdIndex(a)].None? && !allocOk ==>
      r == Fail(ENoMem) && space.pagedir == old(space.pagedir) && tlb.entries == old(tlb.entries)
      && pm.coremap[..] == old(pm.coremap[..]) && pm.nfreepages == old(pm.nfreepages)
      && space.vpages == old(space.vpages)
    ensures r == Fail(ENoMem) <==> old(space.pagedir)[PdIndex(a)].None? && !allocOk
    ensures r == Panic <==> (old(space.pagedir)[PdIndex(a)].Some? || allocOk) && old(pm.nfreepages) == 0
    ensures r == Done || r == Fail(EPerm) ==>
      var e := Lookup(old(space.pagedir), a);
      var npte := Lookup(space.pagedir, a);
      space.pagedir == SetEntry(Link(old(space.pagedir), a), a, npte)
      && (e == 0 ==> npte % PAGE_SIZE == PT_PRESENT_MASK + PT_DIRTY_MASK
                     && space.vpages == old(space.vpages) + 1
                     && pm.FrameIndexOf(npte) < pm.lastPage
                     && !IsPpageFree(pm.coremap[pm.FrameIndexOf(npte)]))
      && (e != 0 ==> npte == PageFrame(e) + PT_PRESENT_MASK + PT_USED_MASK
                     && npte % PAGE_SIZE == PT_PRESENT_MASK + PT_USED_MASK
                     && space.vpages == old(space.vpages))
    ensures r == Fail(EPerm) <==>
      (old(space.pagedir)[PdIndex(a)].Some? || allocOk) && old(pm.nfreepages) != 0
      && faulttype == VM_FAULT_WRITE && !Writeable(space, a)
    ensures r == Fail(EPerm) ==> tlb.entries == old(tlb.entries)
    ensures r == Done ==>
      var hi := EntryHi(a, pid);
      var slot := Tlb.InstallSlot(old(tlb.entries), hi, randomSlot);
      slot < Tlb.NUM_TLB && FirstWhere(tlb.entries, Tlb.PageMatch(hi), 0) == Some(slot)
      && tlb.entries == old(tlb.entries)[slot := Tlb.Mapping(hi, EntryLo(Lookup(space.pagedir, a), Writeable(space, a)))]
    ensures r == Fail(ENoMem) || r == Panic ==>
      FramesOf(pm) == old(FramesOf(pm)) && tlb.entries == old(tlb.entries)
    ensures r == Done || r == Fail(EPerm) ==>
      var found := FirstWhere(sw.slots, SlotFor(SwapKey(pm, a), pid), 0).Some?;
      var f1 := AfterSwapin(old(FramesOf(pm)), found, pid);
      FramesOf(pm) == if Lookup(old(space.pagedir), a) == 0 then AfterNewPage(f1, a, pid) else f1
    ensures r in {Done, Fail(ENoMem), Fail(EPerm), Panic}
    ensures old(pm.Counted()) ==> pm.Counted()
    ensures old(FreeIsZero(pm.coremap[..])) ==> FreeIsZero(pm.coremap[..])
    ensures old(Tlb.Distinct(tlb.entries)) ==> Tlb.Distinct(tlb.entries)
  {
    ghost var pd0 := space.pagedir;
    var err, pte := space.AsGetPtEntry(a, allocOk);
    if err.Some? {
      return Fail(err.value);
    }
    var swapped := SwapinFrames(pm, sw, a, pid);
    if swapped == SwapinNoMem {
      return Panic;
    }
    LinkKeepsLookup(pd0, a, a);
    r := MapAndLoad(pm, tlb, space, faulttype, a, pte, pid, randomSlot);
  }

  /** vm_fault's swapin call, with its effect on the allocator stated as AfterSwapin. */
  method SwapinFrames(pm: PhysMem, sw: SwapMap, a: int, pid: bv32) returns (r: SwapinResult)
    requires pm.Valid() && sw.Valid() && IsU32(a)
    modifies pm`nfreepages, pm`nextFree, pm.coremap
    ensures pm.Valid()
    ensures r == SwapinNoMem <==> old(pm.nfreepages) == 0
    ensures FramesOf(pm) ==
      AfterSwapin(old(FramesOf(pm)), FirstWhere(sw.slots, SlotFor(SwapKey(pm, a), pid), 0).Some?, pid)
    ensures old(pm.Counted()) ==> pm.Counted()
    ensures old(FreeIsZero(pm.coremap[..])) ==> FreeIsZero(pm.coremap[..])
  {
    r := sw.Swapin(pm, a, pid);
  }

  /** The rest of vm_fault once the page's table exists and swapin has run: the entry update
      (MapPage), the writability test, which fails a write fault with EPERM after the entry
      was already rewritten, and the TLB write. */
  method MapAndLoad(pm: PhysMem, tlb: Tlb.Tlb, space: AddrSpace, faulttype: int, a: int, pte: int,
                    pid: bv32, randomSlot: nat) returns (r: FaultResult)
    requires pm.Valid() && tlb.Valid() && space.Valid()
    requires IsU32(a) && PageFrame(a) == a && randomSlot < Tlb.NUM_TLB
    requires space.pagedir[PdIndex(a)].Some? && pte == Lookup(space.pagedir, a)
    modifies pm`nfreepages, pm`nextFree, pm.coremap, tlb`entries, space`pagedir, space`vpages
    ensures pm.Valid() && tlb.Valid() && space.Valid()
    ensures r == Done || r == Fail(EPerm)
    ensures var npte := Lookup(space.pagedir, a);
      space.pagedir == SetEntry(old(space.pagedir), a, npte)
      && (pte == 0 ==> npte % PAGE_SIZE == PT_PRESENT_MASK + PT_DIRTY_MASK
                       && space.vpages == old(space.vpages) + 1
                       && pm.FrameIndexOf(npte) < pm.lastPage
                       && !IsPpageFree(pm.coremap[pm.FrameIndexOf(npte)]))
      && (pte != 0 ==> npte == PageFrame(pte) + PT_PRESENT_MASK + PT_USED_MASK
                       && npte % PAGE_SIZE == PT_PRESENT_MASK + PT_USED_MASK
                       && space.vpages == old(space.vpages))
    ensures FramesOf(pm) == if pte == 0 then AfterNewPage(old(FramesOf(pm)), a, pid) else old(FramesOf(pm))
    ensures pte == 0 ==>
      var cm := old(pm.coremap[..]);
      var k := OneFrame(cm, old(pm.nextFree));
      Lookup(space.pagedir, a) == pm.FrameAddr(k) + PT_PRESENT_MASK + PT_DIRTY_MASK
      && pm.coremap[..] == cm[k := OwnedWord(OneFrameWord(cm, old(pm.nextFree), pid << 6), a)]
    ensures r == Fail(EPerm) <==> faulttype == VM_FAULT_WRITE && !Writeable(space, a)
    ensures r == Fail(EPerm) ==> tlb.entries == old(tlb.entries)
    ensures r == Done ==>
      var hi := EntryHi(a, pid);
      var slot := Tlb.InstallSlot(old(tlb.entries), hi, randomSlot);
      slot < Tlb.NUM_TLB && FirstWhere(tlb.entries, Tlb.PageMatch(hi), 0) == Some(slot)
      && tlb.entries == old(tlb.entries)[slot := Tlb.Mapping(hi, EntryLo(Lookup(space.pagedir, a), Writeable(space, a)))]
    ensures old(pm.Counted()) ==> pm.Counted()
    ensures old(FreeIsZero(pm.coremap[..])) ==> FreeIsZero(pm.coremap[..])
    ensures old(Tlb.Distinct(tlb.entries)) ==> Tlb.Distinct(tlb.entries)
  {
    ghost var pd1 := space.pagedir;
    var npte := MapPage(pm, space, a, pte, pid);
    GetAfterSet(pd1, a, npte, a);
    var writeable := Writeable(space, a);
    if faulttype == VM_FAULT_WRITE && !writeable {
      return Fail(EPerm);
    }
    var hi := EntryHi(a, pid);
    var slot := tlb.Install(hi, EntryLo(npte, writeable), randomSlot);
    r := Done;
  }

  /** vm_fault: EINVAL for an unknown fault type, EFAULT without an address space, SIGSEGV
      outside every segment, each changing nothing; then swapout when nfreepages is at most
      MIN_FREE_PAGES, and FaultIn on the page-aligned address. The faulting process's pid and
      address space are parameters, as are the allocation outcome of as_get_pt_entry's table
      and the slot tlb_random picks. */
  method VmFault(pm: PhysMem, sw: SwapMap, tlb: Tlb.Tlb, space: AddrSpace?, faulttype: int,
                 faultaddress: int, pid: bv32, allocOk: bool, randomSlot: nat) returns (r: FaultResult)
    requires pm.Valid() && sw.Valid() && tlb.Valid() && (space != null ==> space.Valid())
    requires IsU32(faultaddress) && randomSlot < Tlb.NUM_TLB
    requires KnownFault(faulttype) && space != null && space.IsValidAddress(faultaddress)
             && pm.nfreepages <= MIN_FREE_PAGES ==>
      (sw.swapclock < pm.lastPage || exists k :: 0 <= k < pm.lastPage && IsVictim(pm.coremap[k]))
      && (Victim(pm.coremap[..], sw.swapclock).Some? ==> FirstWhere(sw.slots, SlotFree, 0).Some?)
    modifies pm`nfreepages, pm`nextFree, pm.coremap, sw, tlb`entries
    modifies (if space == null then {} else {space})`pagedir, (if space == null then {} else {space})`vpages
    ensures pm.Valid() && sw.Valid() && tlb.Valid() && (space != null ==> space.Valid())
    ensures !KnownFault(faulttype) ==> r == Fail(EInval)
    ensures KnownFault(faulttype) && space == null ==> r == Fail(EFault)
    ensures KnownFault(faulttype) && space != null && !space.IsValidAddress(faultaddress) ==>
      r == Fail(SigSegv)
    ensures r in {Fail(EInval), Fail(EFault), Fail(SigSegv)} ==>
      pm.coremap[..] == old(pm.coremap[..]) && pm.nfreepages == old(pm.nfreepages)
      && pm.nextFree == old(pm.nextFree) && sw.slots == old(sw.slots)
      && sw.swapclock == old(sw.swapclock) && tlb.entries == old(tlb.entries)
      && (space != null ==> space.pagedir == old(space.pagedir) && space.vpages == old(space.vpages))
    ensures old(pm.nfreepages) > MIN_FREE_PAGES ==>
      r != Panic && sw.slots == old(sw.slots) && sw.swapclock == old(sw.swapclock)
    ensures KnownFault(faulttype) && space != null && space.IsValidAddress(faultaddress) ==>
      var a := PageFrame(faultaddress);
      var linked := old(space.pagedir)[PdIndex(a)].Some?;
      var victim := Victim(old(pm.coremap[..]), old(sw.swapclock)).Some?;
      (r == Fail(ENoMem) <==> !linked && !allocOk)
      && (r == Fail(ENoMem) ==> space.pagedir == old(space.pagedir) && space.vpages == old(space.vpages))
      && (r == Panic <==> (linked || allocOk) && old(pm.nfreepages) == 0 && !victim)
      && (r == Fail(EPerm) <==>
            (linked || allocOk) && (old(pm.nfreepages) != 0 || victim)
            && faulttype == VM_FAULT_WRITE && !Writeable(space, a))
    ensures r == Done || r == Fail(EPerm) ==>
      space != null
      && var a := PageFrame(faultaddress);
         var e := Lookup(old(space.pagedir), a);
         var npte := Lookup(space.pagedir, a);
         space.pagedir == SetEntry(Link(old(space.pagedir), a), a, npte)
         && (e == 0 ==> npte % PAGE_SIZE == PT_PRESENT_MASK + PT_DIRTY_MASK
                        && space.vpages == old(space.vpages) + 1
                        && pm.FrameIndexOf(npte) < pm.lastPage
                        && !IsPpageFree(pm.coremap[pm.FrameIndexOf(npte)]))
         && (e != 0 ==> npte == PageFrame(e) + PT_PRESENT_MASK + PT_USED_MASK
                        && space.vpages == old(space.vpages))
    ensures r == Fail(EPerm) ==>
      space != null && faulttype == VM_FAULT_WRITE && !Writeable(space, PageFrame(faultaddress))
    ensures KnownFault(faulttype) && space != null && space.IsValidAddress(faultaddress) ==>
      var a := PageFrame(faultaddress);
      var low := old(pm.nfreepages) <= MIN_FREE_PAGES;
      var f0 := if low then AfterSwapout(old(FramesOf(pm)), old(sw.swapclock)) else old(FramesOf(pm));
      var t0 := if low && Victim(old(pm.coremap[..]), old(sw.swapclock)).Some? then Tlb.Cleared()
                else old(tlb.entries);
      var f1 := AfterSwapin(f0, FirstWhere(sw.slots, SlotFor(SwapKey(pm, a), pid), 0).Some?, pid);
      (r == Fail(ENoMem) || r == Panic ==> FramesOf(pm) == f0 && tlb.entries == t0)
      && (r == Done || r == Fail(EPerm) ==>
            FramesOf(pm) == if Lookup(old(space.pagedir), a) == 0 then AfterNewPage(f1, a, pid) else f1)
      && (r == Fail(EPerm) ==> tlb.entries == t0)
      && (r == Done ==>
            var hi := EntryHi(a, pid);
            Tlb.InstallSlot(t0, hi, randomSlot) < |t0|
            && tlb.entries == t0[Tlb.InstallSlot(t0, hi, randomSlot) := Tlb.Mapping(hi, EntryLo(Lookup(space.pagedir, a), Writeable(space, a)))])
    ensures r == Done ==>
      KnownFault(faulttype) && space != null && space.IsValidAddress(faultaddress)
      && (faulttype == VM_FAULT_WRITE ==> Writeable(space, PageFrame(faultaddress)))
      && var a := PageFrame(faultaddress);
         var npte := Lookup(space.pagedir, a);
         var hi := EntryHi(a, pid);
         var slot := FirstWhere(tlb.entries, Tlb.PageMatch(hi), 0);
         slot.Some? && slot.value < Tlb.NUM_TLB
         && tlb.entries[slot.value] == Tlb.Mapping(hi, EntryLo(npte, Writeable(space, a)))
         && npte % PAGE_SIZE in {PT_PRESENT_MASK + PT_DIRTY_MASK, PT_PRESENT_MASK + PT_USED_MASK}
    ensures old(pm.Counted()) ==> pm.Counted()
    ensures old(FreeIsZero(pm.coremap[..])) ==> FreeIsZero(pm.coremap[..])
    ensures old(Tlb.Distinct(tlb.entries)) ==> Tlb.Distinct(tlb.entries)
    ensures KnownFault(faulttype) && space != null && space.IsValidAddress(faultaddress)
            && old(pm.nfreepages) <= MIN_FREE_PAGES ==>
      SwappedOut(pm, old(pm.coremap[..]), old(sw.slots), old(sw.swapclock), sw.slots, sw.swapclock)
  {
    if !KnownFault(faulttype) {
      return Fail(EInval);
    }
    if space == null {
      return Fail(EFault);
    }
    if !space.IsValidAddress(faultaddress) {
      return Fail(SigSegv);
    }
    SwapoutIfLow(pm, sw, tlb);
    var a := PageFrame(faultaddress);
    PageFrameIdem(faultaddress);
    r := FaultIn(pm, sw, tlb, space, faulttype, a, pid, allocOk, randomSlot);
  }

  /** vm_fault's `if (nfreepages <= MIN_FREE_PAGES) swapout();`: above the threshold nothing
      changes; at or below it, swapout runs, keeping the free count and the TLB's
      one-entry-per-page property. */
  method SwapoutIfLow(pm: PhysMem, sw: SwapMap, tlb: Tlb.Tlb)
    requires pm.Valid() && sw.Valid() && tlb.Valid()
    requires pm.nfreepages <= MIN_FREE_PAGES ==>
      (sw.swapclock < pm.lastPage || exists k :: 0 <= k < pm.lastPage && IsVictim(pm.coremap[k]))
      && (Victim(pm.coremap[..], sw.swapclock).Some? ==> FirstWhere(sw.slots, SlotFree, 0).Some?)
    modifies pm`nfreepages, pm.coremap, sw, tlb`entries
    ensures pm.Valid() && sw.Valid() && tlb.Valid() && pm.nextFree == old(pm.nextFree)
    ensures old(pm.nfreepages) > MIN_FREE_PAGES ==>
      pm.coremap[..] == old(pm.coremap[..]) && pm.nfreepages == old(pm.nfreepages)
      && sw.slots == old(sw.slots) && sw.swapclock == old(sw.swapclock) && tlb.entries == old(tlb.entries)
    ensures old(pm.nfreepages) <= MIN_FREE_PAGES ==>
      pm.nfreepages == if Victim(old(pm.coremap[..]), old(sw.swapclock)).Some?
                       then Wrap32(old(pm.nfreepages) + 1) else old(pm.nfreepages)
    ensures old(pm.nfreepages) <= MIN_FREE_PAGES ==>
      SwappedOut(pm, old(pm.coremap[..]), old(sw.slots), old(sw.swapclock), sw.slots, sw.swapclock)
    ensures FramesOf(pm) == if old(pm.nfreepages) <= MIN_FREE_PAGES
                            then AfterSwapout(old(FramesOf(pm)), old(sw.swapclock)) else old(FramesOf(pm))
    ensures tlb.entries == if old(pm.nfreepages) <= MIN_FREE_PAGES && Victim(old(pm.coremap[..]), old(sw.swapclock)).Some?
                           then Tlb.Cleared() else old(tlb.entries)
    ensures old(pm.Counted()) ==> pm.Counted()
    ensures old(FreeIsZero(pm.coremap[..])) ==> FreeIsZero(pm.coremap[..])
    ensures old(Tlb.Distinct(tlb.entries)) ==> Tlb.Distinct(tlb.entries)
  {
    if pm.nfreepages <= MIN_FREE_PAGES {
      sw.Swapout(pm, tlb);
      if Victim(old(pm.coremap[..]), old(sw.swapclock)).Some? {
        assert tlb.entries == Tlb.Cleared();
      }
    }
  }

  // ---------------------------------------------------------------------------------------
  // alloc_kpages

  /** alloc_kpages once the VM is up: acquire_one_page for one page, acquire_pages for any
      other count; as_kpages of the current address space (when there is one) grows by
      npages whether or not the allocation succeeded; the physical address becomes a kernel
      address, and a zero address stays 0. */
  method AllocKPages(pm: PhysMem, space: AddrSpace?, npages: nat, pb: bv32) returns (kaddr: int)
    requires pm.Valid() && pb & 0x3F == 0 && IsU32(npages)
    modifies pm`nfreepages, pm`nextFree, pm.coremap, (if space == null then {} else {space})`kpages
    ensures pm.Valid() && IsU32(kaddr)
    ensures space != null ==> space.kpages == old(space.kpages) + npages
    ensures npages == 1 ==>
      var cm := old(pm.coremap[..]);
      var k := OneFrame(cm, old(pm.nextFree));
      kaddr == PaddrToKvaddr(pm.FrameAddr(k))
      && pm.coremap[..] == cm[k := OneFrameWord(cm, old(pm.nextFree), pb)]
    ensures npages == 1 ==>
      match ScanFree(old(pm.coremap[..]), old(pm.nextFree), 0)
      case None => pm.nfreepages == old(pm.nfreepages) && pm.nextFree == old(pm.nextFree)
      case Some(k) =>
        pm.nfreepages == Wrap32(old(pm.nfreepages) - 1)
        && pm.nextFree == if k + 1 >= pm.lastPage then 0 else k + 1
    ensures npages != 1 ==>
      match RunScan(old(pm.coremap[..]), npages, 0, old(pm.nextFree), 0)
      case None =>
        kaddr == 0 && pm.coremap[..] == old(pm.coremap[..]) && pm.nfreepages == old(pm.nfreepages)
        && pm.nextFree == old(pm.nextFree)
      case Some(e) =>
        npages <= e < pm.lastPage && kaddr == PaddrToKvaddr(pm.FrameAddr(e - npages))
        && pm.coremap[..] == MarkRun(old(pm.coremap[..]), e - npages, e, pb)
        && pm.nfreepages == Wrap32(old(pm.nfreepages) - npages) && pm.nextFree == e
    ensures old(pm.Counted()) ==> pm.Counted()
    ensures old(FreeIsZero(pm.coremap[..])) ==> FreeIsZero(pm.coremap[..])
  {
    ghost var cm0 := pm.coremap[..];
    ghost var cursor := pm.nextFree;
    var addr;
    if npages == 1 {
      addr := pm.AcquireOnePage(pb);
      ScanFreeSpec(cm0, cursor, 0);
    } else {
      addr := pm.AcquirePages(npages, pb);
    }
    if space != null {
      space.kpages := space.kpages + npages;
    }
    kaddr := if addr > 0 then PaddrToKvaddr(addr) else 0;
  }

  /** The run alloc_kpages hands out goes back whole: free_kpages on the kernel address of a
      run acquire_pages marked restores every descriptor and the free count. */
  lemma AllocRunThenFree(pm: PhysMem, cm: seq<bv32>, n: int, lo: nat, hi: nat, pb: bv32)
    requires pm.Valid() && |cm| == pm.lastPage && IsU32(n) && pb & 0x3F == 0
    requires lo < hi <= pm.lastPage && FreeIsZero(cm) && IsU32(n - (hi - lo))
    requires forall k :: lo <= k < hi ==> IsPpageFree(cm[k])
    ensures pm.AfterFree(MarkRun(cm, lo, hi, pb), n - (hi - lo), PaddrToKvaddr(pm.FrameAddr(lo))) == (cm, n)
  {
    pm.FrameIndexOfAddr(lo, 0);
    KvaddrRoundTrip(pm.FrameAddr(lo));
    FreeMarkedRun(pm, cm, n, lo, hi, pb, PaddrToKvaddr(pm.FrameAddr(lo)));
  }

  /** free_kpages on an address whose frame index is the base of a marked run. */
  lemma FreeMarkedRun(pm: PhysMem, cm: seq<bv32>, n: int, lo: nat, hi: nat, pb: bv32, a: int)
    requires |cm| == pm.lastPage && pm.lastPage < U32 && IsU32(pm.userBase) && IsU32(n) && IsU32(a)
    requires lo < hi <= pm.lastPage && pb & 0x3F == 0 && FreeIsZero(cm) && IsU32(n - (hi - lo))
    requires forall k :: lo <= k < hi ==> IsPpageFree(cm[k])
    requires pm.FrameIndexOf(KvaddrToPaddr(a)) == lo
    ensures pm.AfterFree(MarkRun(cm, lo, hi, pb), n - (hi - lo), a) == (cm, n)
  {
    MarkThenFree(cm, lo, hi, pb);
  }

  /** The single-page round trip: free_kpages on the kernel address acquire_one_page's frame
      maps to releases that frame alone and restores the directory and the count. */
  lemma AllocOneThenFree(pm: PhysMem, cm: seq<bv32>, n: int, k: nat, pb: bv32)
    requires pm.Valid() && |cm| == pm.lastPage && IsU32(n) && pb & 0x3F == 0
    requires k < pm.lastPage && cm[k] == PP_FREE && 0 < n
    ensures pm.AfterFree(cm[k := AllocWord(pb, true)], n - 1, PaddrToKvaddr(pm.FrameAddr(k))) == (cm, n)
  {
    pm.FrameIndexOfAddr(k, 0);
    KvaddrRoundTrip(pm.FrameAddr(k));
    OneThenFree(cm, k, pb);
  }

  // ---------------------------------------------------------------------------------------
  // duplicate_pagetable

  /** The entries duplicate_pagetable copies: nonzero ones whose frame index, computed
      without masking the flag bits, lies below last_page. */
  predicate Copied(pm: PhysMem, e: int)
    requires IsU32(e) && IsU32(pm.userBase)
  {
    e != 0 && pm.FrameIndexOf(e) < pm.lastPage
  }

  /** The unmasked `(entry - user_base_addr) / PAGE_SIZE` names the same frame as the masked
      index: the base and 2^32 are multiples of the page size. */
  lemma UnmaskedIndex(pm: PhysMem, e: int)
    requires pm.Valid() && IsU32(e)
    ensures Wrap32(e - pm.userBase) / PAGE_SIZE == pm.FrameIndexOf(e)
  {
    var f := PageFrame(e);
    var r := e % PAGE_SIZE;
    assert Wrap32(e - pm.userBase) == Wrap32(f - pm.userBase) + r;
    assert Wrap32(f - pm.userBase) % PAGE_SIZE == 0;
  }

  /** Number of entries among the first i that duplicate_pagetable copies. */
  function CopyCount(pm: PhysMem, from: seq<int>, i: nat): (c: nat)
    requires TableOk(from) && i <= NUM_PTE && IsU32(pm.userBase)
    ensures c <= i
  {
    if i == 0 then 0 else CopyCount(pm, from, i - 1) + Bit(Copied(pm, from[i - 1]))
  }

  /** Every frame the parent table names is in use: the descriptor copied for each entry is
      not FREE. */
  ghost predicate ParentInUse(pm: PhysMem, cm: seq<bv32>, from: seq<int>)
    requires TableOk(from) && |cm| == pm.lastPage && IsU32(pm.userBase)
  {
    forall i :: 0 <= i < NUM_PTE && Copied(pm, from[i]) ==> !IsPpageFree(cm[pm.FrameIndexOf(from[i])])
  }

  /** The first i entries of the child table as duplicate_pagetable leaves them: an entry it
      copies keeps the parent's flag bits and names a managed frame; every other entry, and
      every entry from i on, is still the child's own. */
  ghost predicate DupShape(pm: PhysMem, from: seq<int>, to: seq<int>, nto: seq<int>, i: nat)
    requires TableOk(from) && TableOk(to) && IsU32(pm.userBase)
  {
    TableOk(nto) && i <= NUM_PTE
    && (forall j :: 0 <= j < NUM_PTE && (i <= j || !Copied(pm, from[j])) ==> nto[j] == to[j])
    && (forall j :: 0 <= j < i && Copied(pm, from[j]) ==>
          nto[j] % PAGE_SIZE == from[j] % PAGE_SIZE && pm.FrameIndexOf(nto[j]) < pm.lastPage)
  }

  /** With frames to spare, the first i copies went to distinct frames that were FREE at the
      start, each now holding its parent frame's descriptor, and no descriptor in use at the
      start changed. */
  ghost predicate DupFresh(pm: PhysMem, cm0: seq<bv32>, cm: seq<bv32>, from: seq<int>, nto: seq<int>, i: nat)
    requires TableOk(from) && TableOk(nto) && IsU32(pm.userBase)
    requires |cm0| == pm.lastPage && |cm| == pm.lastPage
  {
    (forall k :: 0 <= k < |cm0| && !IsPpageFree(cm0[k]) ==> cm[k] == cm0[k])
    && (forall j :: 0 <= j < i && j < NUM_PTE && Copied(pm, from[j]) ==>
          pm.FrameIndexOf(nto[j]) < pm.lastPage
          && IsPpageFree(cm0[pm.FrameIndexOf(nto[j])])
          && cm[pm.FrameIndexOf(nto[j])] == cm0[pm.FrameIndexOf(from[j])])
    && (forall j, j' :: 0 <= j < j' < i && j' < NUM_PTE && Copied(pm, from[j]) && Copied(pm, from[j']) ==>
          pm.FrameIndexOf(nto[j]) != pm.FrameIndexOf(nto[j']))
  }

  /** duplicate_pagetable: for each parent entry that is nonzero and whose frame index is
      below last_page, claims a frame with acquire_one_page, gives the child entry that frame
      with the parent entry's low twelve bits, and copies the parent frame's descriptor onto
      the new frame. Its ENOMEM return tests the masked result of acquire_one_page, which is
      a frame address and never 0, so it never fails. The table is a value: the child's new
      table is returned. When the parent's frames are all in use and enough frames are free,
      the copies land on distinct, formerly FREE frames and the free count stays exact. */
  method DuplicatePagetable(pm: PhysMem, from: seq<int>, to: seq<int>, pb: bv32)
    returns (err: Option<Errno>, nto: seq<int>)
    requires pm.Valid() && TableOk(from) && TableOk(to) && pb & 0x3F == 0
    modifies pm`nfreepages, pm`nextFree, pm.coremap
    ensures pm.Valid() && err == None && DupShape(pm, from, to, nto, NUM_PTE)
    ensures old(FreeIsZero(pm.coremap[..])) ==> FreeIsZero(pm.coremap[..])
    ensures old(pm.Counted()) && ParentInUse(pm, old(pm.coremap[..]), from) ==> pm.Counted()
    ensures old(pm.Counted()) && ParentInUse(pm, old(pm.coremap[..]), from)
            && old(pm.nfreepages) >= CopyCount(pm, from, NUM_PTE) ==>
      DupFresh(pm, old(pm.coremap[..]), pm.coremap[..], from, nto, NUM_PTE)
      && pm.nfreepages == old(pm.nfreepages) - CopyCount(pm, from, NUM_PTE)
  {
    ghost var cm0 := pm.coremap[..];
    ghost var n0 := pm.nfreepages;
    ghost var inUse := n0 == CountFree(cm0) && ParentInUse(pm, cm0, from);
    ghost var ample := inUse && n0 >= CopyCount(pm, from, NUM_PTE);
    err := None;
    nto := to;
    var i := 0;
    while i < NUM_PTE
      invariant pm.Valid() && i <= NUM_PTE && err == None
      invariant DupInv(pm, from, to, cm0, n0, inUse, ample, nto, pm.coremap[..], pm.nfreepages, i)
    {
      var failed;
      nto, failed := DupSlot(pm, from, to, nto, i, pb, cm0, n0, inUse, ample);
      if failed {
        err := Some(ENoMem);
        break;
      }
      i := i + 1;
    }
  }

  /** What duplicate_pagetable's loop keeps after i entries, for directory cm and counter n:
      the shape of the child table, zero FREE words, an exact count while the parent's frames
      stay in use, and fresh distinct copies when frames are to spare. */
  ghost predicate DupInv(pm: PhysMem, from: seq<int>, to: seq<int>, cm0: seq<bv32>, n0: int,
                         inUse: bool, ample: bool, nto: seq<int>, cm: seq<bv32>, n: int, i: nat)
    requires TableOk(from) && TableOk(to) && IsU32(pm.userBase) && |cm0| == pm.lastPage
  {
    DupShape(pm, from, to, nto, i) && |cm| == pm.lastPage
    && (FreeIsZero(cm0) ==> FreeIsZero(cm))
    && (inUse <==> n0 == CountFree(cm0) && ParentInUse(pm, cm0, from))
    && (ample <==> inUse && n0 >= CopyCount(pm, from, NUM_PTE))
    && (inUse ==> n == CountFree(cm) && ParentInUse(pm, cm, from))
    && (ample ==> DupFresh(pm, cm0, cm, from, nto, i) && n + CopyCount(pm, from, i) == n0)
  }

  /** One iteration of duplicate_pagetable's loop: entries that are zero or whose frame
      index is not below last_page are skipped. */
  method DupSlot(pm: PhysMem, from: seq<int>, to: seq<int>, nto: seq<int>, i: nat, pb: bv32,
                 ghost cm0: seq<bv32>, ghost n0: int, ghost inUse: bool, ghost ample: bool)
    returns (nto': seq<int>, failed: bool)
    requires pm.Valid() && TableOk(from) && TableOk(to) && pb & 0x3F == 0 && |cm0| == pm.lastPage
    requires i < NUM_PTE && DupInv(pm, from, to, cm0, n0, inUse, ample, nto, pm.coremap[..], pm.nfreepages, i)
    modifies pm`nfreepages, pm`nextFree, pm.coremap
    ensures pm.Valid() && !failed
    ensures DupInv(pm, from, to, cm0, n0, inUse, ample, nto', pm.coremap[..], pm.nfreepages, i + 1)
  {
    nto', failed := nto, false;
    var copy := false;
    if from[i] != 0 {
      var cmidxFrom := Wrap32(from[i] - pm.userBase) / PAGE_SIZE;
      UnmaskedIndex(pm, from[i]);
      copy := cmidxFrom < pm.lastPage;
    }
    if copy {
      nto', failed := CopyEntry(pm, from, to, nto, i, pb, cm0, n0, inUse, ample);
    } else {
      DupSkip(pm, from, to, cm0, n0, inUse, ample, nto, pm.coremap[..], pm.nfreepages, i);
    }
  }

  /** A copied entry keeps the loop invariant of duplicate_pagetable. */
  method CopyEntry(pm: PhysMem, from: seq<int>, to: seq<int>, nto: seq<int>, i: nat, pb: bv32,
                   ghost cm0: seq<bv32>, ghost n0: int, ghost inUse: bool, ghost ample: bool)
    returns (nto': seq<int>, failed: bool)
    requires pm.Valid() && TableOk(from) && TableOk(to) && pb & 0x3F == 0 && |cm0| == pm.lastPage
    requires i < NUM_PTE && Copied(pm, from[i])
    requires DupInv(pm, from, to, cm0, n0, inUse, ample, nto, pm.coremap[..], pm.nfreepages, i)
    modifies pm`nfreepages, pm`nextFree, pm.coremap
    ensures pm.Valid() && !failed
    ensures DupInv(pm, from, to, cm0, n0, inUse, ample, nto', pm.coremap[..], pm.nfreepages, i + 1)
  {
    if ample {
      CopyCountMono(pm, from, i + 1, NUM_PTE);
    }
    ghost var cm := pm.coremap[..];
    ghost var n := pm.nfreepages;
    ghost var cursor := pm.nextFree;
    nto', failed := DupEntry(pm, from, nto, i, pb);
    ghost var k := OneFrame(cm, cursor);
    DupEntryStep(pm, from, to, cm0, n0, inUse, ample, nto, cm, n, i, cursor, pb,
                 k, pm.coremap[..], pm.nfreepages, pm.FrameAddr(k) + from[i] % PAGE_SIZE, nto');
  }

  /** A skipped entry leaves the child's entry, the copies so far and the count as they were. */
  lemma DupSkip(pm: PhysMem, from: seq<int>, to: seq<int>, cm0: seq<bv32>, n0: int,
                inUse: bool, ample: bool, nto: seq<int>, cm: seq<bv32>, n: int, i: nat)
    requires TableOk(from) && TableOk(to) && IsU32(pm.userBase) && i < NUM_PTE && |cm0| == pm.lastPage
    requires DupInv(pm, from, to, cm0, n0, inUse, ample, nto, cm, n, i) && !Copied(pm, from[i])
    ensures DupInv(pm, from, to, cm0, n0, inUse, ample, nto, cm, n, i + 1)
  {
    assert CopyCount(pm, from, i + 1) == CopyCount(pm, from, i);
    DupSkipShape(pm, from, to, nto, i);
    if ample {
      DupSkipFresh(pm, cm0, cm, from, nto, i);
    }
  }

  lemma DupSkipShape(pm: PhysMem, from: seq<int>, to: seq<int>, nto: seq<int>, i: nat)
    requires TableOk(from) && TableOk(to) && IsU32(pm.userBase) && i < NUM_PTE
    requires DupShape(pm, from, to, nto, i) && !Copied(pm, from[i])
    ensures DupShape(pm, from, to, nto, i + 1)
  {
  }

  lemma DupSkipFresh(pm: PhysMem, cm0: seq<bv32>, cm: seq<bv32>, from: seq<int>, nto: seq<int>, i: nat)
    requires TableOk(from) && TableOk(nto) && IsU32(pm.userBase) && i < NUM_PTE
    requires |cm0| == pm.lastPage && |cm| == pm.lastPage
    requires DupFresh(pm, cm0, cm, from, nto, i) && !Copied(pm, from[i])
    ensures DupFresh(pm, cm0, cm, from, nto, i + 1)
  {
  }

  /** Counting copied entries up to a later index counts at least as many. */
  lemma {:induction false} CopyCountMono(pm: PhysMem, from: seq<int>, i: nat, j: nat)
    requires TableOk(from) && i <= j <= NUM_PTE && IsU32(pm.userBase)
    ensures CopyCount(pm, from, i) <= CopyCount(pm, from, j)
    decreases j - i
  {
    if i < j {
      CopyCountMono(pm, from, i, j - 1);
    }
  }

  /** One copied entry of duplicate_pagetable: acquire_one_page, the dead zero test, the
      child entry (the new frame with the parent entry's low twelve bits) and the copy of
      the parent frame's descriptor onto the new frame. */
  method DupEntry(pm: PhysMem, from: seq<int>, nto: seq<int>, i: nat, pb: bv32)
    returns (nto': seq<int>, failed: bool)
    requires pm.Valid() && TableOk(from) && TableOk(nto) && pb & 0x3F == 0
    requires i < NUM_PTE && Copied(pm, from[i])
    modifies pm`nfreepages, pm`nextFree, pm.coremap
    ensures pm.Valid() && !failed
    ensures var k := OneFrame(old(pm.coremap[..]), old(pm.nextFree));
      var cm1 := old(pm.coremap[..])[k := OneFrameWord(old(pm.coremap[..]), old(pm.nextFree), pb)];
      nto' == nto[i := pm.FrameAddr(k) + from[i] % PAGE_SIZE]
      && pm.coremap[..] == cm1[k := cm1[pm.FrameIndexOf(from[i])]]
      && pm.nfreepages == if ScanFree(old(pm.coremap[..]), old(pm.nextFree), 0).Some?
                          then Wrap32(old(pm.nfreepages) - 1) else old(pm.nfreepages)
  {
    ghost var cm := pm.coremap[..];
    ghost var cursor := pm.nextFree;
    ghost var k := OneFrame(cm, cursor);
    ghost var cm1 := cm[k := OneFrameWord(cm, cursor, pb)];
    var src := Wrap32(from[i] - pm.userBase) / PAGE_SIZE;
    UnmaskedIndex(pm, from[i]);
    var paddrTo := pm.AcquireOnePage(pb);
    assert pm.coremap[..] == cm1;
    FrameEntryIndex(pm, k, 0);
    paddrTo := PageFrame(paddrTo);
    failed := paddrTo == 0;
    nto' := nto;
    if !failed {
      // the page contents are copied here (memcpy), which the model does not track;
      // the frame is page-aligned, so ORing in the low bits adds them
      nto' := nto[i := paddrTo + from[i] % PAGE_SIZE];
      var dst := Wrap32(paddrTo - pm.userBase) / PAGE_SIZE;
      OneFrameInUse(cm, cursor, pb);
      CopyDescriptor(pm, dst, src);
    }
  }

  /** The loop invariant of duplicate_pagetable survives one copied entry, stated on the
      values the entry's steps leave: the directory after acquire_one_page and the
      descriptor copy, the counter after acquire_one_page, and the new child entry. */
  lemma DupEntryStep(pm: PhysMem, from: seq<int>, to: seq<int>, cm0: seq<bv32>, n0: int,
                     inUse: bool, ample: bool, nto: seq<int>, cm: seq<bv32>, n: int, i: nat,
                     cursor: nat, pb: bv32, k: nat, cm2: seq<bv32>, n1: int, v: int, nto2: seq<int>)
    requires pm.Valid() && TableOk(from) && TableOk(to) && pb & 0x3F == 0 && |cm0| == pm.lastPage
    requires i < NUM_PTE && Copied(pm, from[i]) && cursor < pm.lastPage && IsU32(n)
    requires DupInv(pm, from, to, cm0, n0, inUse, ample, nto, cm, n, i)
    requires ample ==> CopyCount(pm, from, i + 1) <= n0
    requires k == OneFrame(cm, cursor) && v == pm.FrameAddr(k) + from[i] % PAGE_SIZE
    requires n1 == if ScanFree(cm, cursor, 0).Some? then Wrap32(n - 1) else n
    requires var cm1 := cm[k := OneFrameWord(cm, cursor, pb)];
      cm2 == cm1[k := cm1[pm.FrameIndexOf(from[i])]]
    requires nto2 == nto[i := v]
    ensures IsU32(v) && DupInv(pm, from, to, cm0, n0, inUse, ample, nto2, cm2, n1, i + 1)
  {
    var w := OneFrameWord(cm, cursor, pb);
    var cm1 := cm[k := w];
    var src := pm.FrameIndexOf(from[i]);
    OneFrameInUse(cm, cursor, pb);
    FrameEntryIndex(pm, k, from[i] % PAGE_SIZE);
    DupShapeStep(pm, from, to, nto, i, v);
    ClaimOneKeepsCount(cm, n, cursor, AllocWord(pb, true));
    ScanFreeSpec(cm, cursor, 0);
    assert FreeIsZero(cm0) ==> FreeIsZero(cm2) by {
      if FreeIsZero(cm0) {
        assert FreeIsZero(cm1);
        CopyKeepsFreeZero(cm1, k, src);
      }
    }
    if inUse {
      DupCountStep(pm, from, cm, n, cursor, pb);
    }
    if ample {
      DupAmpleStep(pm, cm0, n0, cm, n, from, nto, i, cursor, pb, v);
    }
  }

  /** With frames to spare, the frame acquire_one_page finds is FREE and not the parent's
      frame, so the copy lands on a fresh frame and the counter drops by one. */
  lemma DupAmpleStep(pm: PhysMem, cm0: seq<bv32>, n0: int, cm: seq<bv32>, n: int, from: seq<int>,
                     nto: seq<int>, i: nat, cursor: nat, pb: bv32, v: int)
    requires pm.Valid() && TableOk(from) && TableOk(nto) && pb & 0x3F == 0 && i < NUM_PTE
    requires |cm0| == pm.lastPage && |cm| == pm.lastPage && cursor < pm.lastPage && IsU32(n)
    requires ParentInUse(pm, cm0, from) && ParentInUse(pm, cm, from) && n == CountFree(cm)
    requires Copied(pm, from[i]) && DupFresh(pm, cm0, cm, from, nto, i)
    requires n + CopyCount(pm, from, i) == n0 && CopyCount(pm, from, i + 1) <= n0
    requires v == pm.FrameAddr(OneFrame(cm, cursor)) + from[i] % PAGE_SIZE
    ensures var k := OneFrame(cm, cursor);
      var cm1 := cm[k := OneFrameWord(cm, cursor, pb)];
      ScanFree(cm, cursor, 0).Some?
      && DupFresh(pm, cm0, cm1[k := cm1[pm.FrameIndexOf(from[i])]], from, nto[i := v], i + 1)
      && Wrap32(n - 1) + CopyCount(pm, from, i + 1) == n0
  {
    var k := OneFrame(cm, cursor);
    DupAmpleCount(pm, n0, cm, n, from, i, cursor);
    DupAmpleFresh(pm, cm0, cm, from, nto, i, k, OneFrameWord(cm, cursor, pb), v);
  }

  /** With frames to spare, acquire_one_page finds a FREE frame and the counter drops by one
      for the copied entry. */
  lemma DupAmpleCount(pm: PhysMem, n0: int, cm: seq<bv32>, n: int, from: seq<int>, i: nat, cursor: nat)
    requires TableOk(from) && IsU32(pm.userBase) && i < NUM_PTE
    requires cursor < |cm| && IsU32(n) && n == CountFree(cm)
    requires Copied(pm, from[i]) && n + CopyCount(pm, from, i) == n0 && CopyCount(pm, from, i + 1) <= n0
    ensures ScanFree(cm, cursor, 0).Some? && IsPpageFree(cm[OneFrame(cm, cursor)])
    ensures Wrap32(n - 1) + CopyCount(pm, from, i + 1) == n0
  {
    assert CopyCount(pm, from, i + 1) == CopyCount(pm, from, i) + 1;
    ClaimOneKeepsCount(cm, n, cursor, PP_DIRTY);
  }

  /** Copying the parent's descriptor onto the FREE frame k, just claimed with word w, keeps
      the copies fresh and distinct. */
  lemma DupAmpleFresh(pm: PhysMem, cm0: seq<bv32>, cm: seq<bv32>, from: seq<int>, nto: seq<int>,
                      i: nat, k: nat, w: bv32, v: int)
    requires pm.Valid() && TableOk(from) && TableOk(nto) && i < NUM_PTE
    requires |cm0| == pm.lastPage && |cm| == pm.lastPage && k < pm.lastPage && IsPpageFree(cm[k])
    requires ParentInUse(pm, cm0, from) && ParentInUse(pm, cm, from)
    requires Copied(pm, from[i]) && DupFresh(pm, cm0, cm, from, nto, i)
    requires v == pm.FrameAddr(k) + from[i] % PAGE_SIZE
    ensures var cm1 := cm[k := w];
      DupFresh(pm, cm0, cm1[k := cm1[pm.FrameIndexOf(from[i])]], from, nto[i := v], i + 1)
  {
    var src := pm.FrameIndexOf(from[i]);
    assert !IsPpageFree(cm[src]);
    FrameEntryIndex(pm, k, from[i] % PAGE_SIZE);
    assert cm[k := w][k := cm[k := w][src]] == cm[k := cm[src]];
    DupFreshStep(pm, cm0, cm, from, nto, i, k, v);
  }

  /** While the parent's frames stay in use, claiming a frame and copying a parent
      descriptor onto it keeps the counter exact and the parent's frames in use. */
  lemma DupCountStep(pm: PhysMem, from: seq<int>, cm: seq<bv32>, n: int, cursor: nat, pb: bv32)
    requires TableOk(from) && |cm| == pm.lastPage && IsU32(pm.userBase) && cursor < |cm|
    requires pb & 0x3F == 0 && IsU32(n) && n == CountFree(cm) && ParentInUse(pm, cm, from)
    ensures forall src :: 0 <= src < |cm| && !IsPpageFree(cm[src]) ==>
      var k := OneFrame(cm, cursor);
      var cm1 := cm[k := OneFrameWord(cm, cursor, pb)];
      var cm2 := cm1[k := cm1[src]];
      var n1 := if ScanFree(cm, cursor, 0).Some? then Wrap32(n - 1) else n;
      n1 == CountFree(cm2) && ParentInUse(pm, cm2, from)
  {
    var k := OneFrame(cm, cursor);
    var w := OneFrameWord(cm, cursor, pb);
    var cm1 := cm[k := w];
    var n1 := if ScanFree(cm, cursor, 0).Some? then Wrap32(n - 1) else n;
    OneFrameInUse(cm, cursor, pb);
    ClaimOneKeepsCount(cm, n, cursor, AllocWord(pb, true));
    if ScanFree(cm, cursor, 0).Some? {
      assert w == AllocWord(pb, true);
      assert n1 == CountFree(cm1);
    } else {
      assert cm1 == cm;
    }
    ParentInUseUpdate(pm, cm, from, k, w);
    forall src | 0 <= src < |cm| && !IsPpageFree(cm[src])
      ensures n1 == CountFree(cm1[k := cm1[src]]) && ParentInUse(pm, cm1[k := cm1[src]], from)
    {
      assert !IsPpageFree(cm1[src]);
      CountFreeUpdate(cm1, k, cm1[src]);
      ParentInUseUpdate(pm, cm1, from, k, cm1[src]);
    }
  }

  /** Copying one descriptor over another keeps FREE words zero. */
  lemma CopyKeepsFreeZero(cm: seq<bv32>, k: nat, src: nat)
    requires k < |cm| && src < |cm| && FreeIsZero(cm)
    ensures FreeIsZero(cm[k := cm[src]])
  {
  }

  /** The shape of the child table after one more copied entry. */
  lemma DupShapeStep(pm: PhysMem, from: seq<int>, to: seq<int>, nto: seq<int>, i: nat, v: int)
    requires IsU32(pm.userBase) && TableOk(from) && TableOk(to) && i < NUM_PTE
    requires Copied(pm, from[i]) && DupShape(pm, from, to, nto, i)
    requires IsU32(v) && v % PAGE_SIZE == from[i] % PAGE_SIZE && pm.FrameIndexOf(v) < pm.lastPage
    ensures DupShape(pm, from, to, nto[i := v], i + 1)
  {
  }

  /** Writing a descriptor in use anywhere keeps every parent frame in use. */
  lemma ParentInUseUpdate(pm: PhysMem, cm: seq<bv32>, from: seq<int>, k: nat, w: bv32)
    requires TableOk(from) && |cm| == pm.lastPage && IsU32(pm.userBase) && k < |cm|
    requires ParentInUse(pm, cm, from) && !IsPpageFree(w)
    ensures ParentInUse(pm, cm[k := w], from)
  {
  }

  /** One more copy onto the FREE frame k keeps the copies fresh and distinct: k was FREE at
      the start, and every earlier copy's frame now holds a descriptor in use. */
  lemma DupFreshStep(pm: PhysMem, cm0: seq<bv32>, cm: seq<bv32>, from: seq<int>, nto: seq<int>,
                     i: nat, k: nat, v: int)
    requires TableOk(from) && TableOk(nto) && IsU32(pm.userBase) && i < NUM_PTE
    requires |cm0| == pm.lastPage && |cm| == pm.lastPage && ParentInUse(pm, cm0, from)
    requires DupFresh(pm, cm0, cm, from, nto, i) && Copied(pm, from[i])
    requires IsU32(v) && pm.FrameIndexOf(v) == k && k < pm.lastPage && IsPpageFree(cm[k])
    ensures DupFresh(pm, cm0, cm[k := cm[pm.FrameIndexOf(from[i])]], from, nto[i := v], i + 1)
  {
    var src := pm.FrameIndexOf(from[i]);
    assert !IsPpageFree(cm0[src]);
    assert IsPpageFree(cm0[k]);
    var cm' := cm[k := cm[src]];
    var nto' := nto[i := v];
    forall j | 0 <= j < i && Copied(pm, from[j])
      ensures pm.FrameIndexOf(nto'[j]) != k && cm'[pm.FrameIndexOf(nto'[j])] == cm0[pm.FrameIndexOf(from[j])]
    {
      assert nto'[j] == nto[j];
      assert !IsPpageFree(cm[pm.FrameIndexOf(nto[j])]);
    }
  }

  /** `_coremap[cmidx_to] = _coremap[cmidx_from]` onto a frame in use. */
  method CopyDescriptor(pm: PhysMem, dst: nat, src: nat)
    requires pm.Valid() && dst < pm.lastPage && src < pm.lastPage && !IsPpageFree(pm.coremap[dst])
    modifies pm.coremap
    ensures pm.coremap[..] == old(pm.coremap[..])[dst := old(pm.coremap[src])]
    ensures old(pm.Counted()) && !IsPpageFree(old(pm.coremap[src])) ==> pm.Counted()
    ensures old(FreeIsZero(pm.coremap[..])) ==> FreeIsZero(pm.coremap[..])
  {
    ghost var cm := pm.coremap[..];
    pm.coremap[dst] := pm.coremap[src];
    CountFreeUpdate(cm, dst, cm[src]);
  }

  /** Copying a FREE parent descriptor (an entry naming a frame already released) onto the
      frame acquire_one_page just claimed makes that frame FREE again while nfreepages stays
      decremented: the directory's free count is back where it started, one above the counter. */
  lemma CopyFreeDescriptorMiscounts(cm: seq<bv32>, k: nat, src: nat, pb: bv32)
    requires k < |cm| && src < |cm| && k != src && pb & 0x3F == 0
    requires IsPpageFree(cm[k]) && IsPpageFree(cm[src])
    ensures CountFree(cm[k := AllocWord(pb, true)][k := cm[src]]) == CountFree(cm)
  {
    assert cm[k := AllocWord(pb, true)][k := cm[src]] == cm[k := cm[src]];
    CountFreeUpdate(cm, k, cm[src]);
  }

  // ---------------------------------------------------------------------------------------
  // alloc_sbrk_pages

  /** The j-th page from heap top `top`, in vaddr_t arithmetic. */
  function HeapPage(top: int, j: nat): (a: int)
    ensures IsU32(a)
  {
    (top + j * PAGE_SIZE) % U32
  }

  /** Stepping the heap top by one page is the next heap page. */
  lemma HeapPageNext(top: int, j: nat)
    requires IsU32(top)
    ensures Wrap32(HeapPage(top, j) + PAGE_SIZE) == HeapPage(top, j + 1)
  {
    var a := HeapPage(top, j);
    Wrap32IsMod(a + PAGE_SIZE);
    var q := (top + j * PAGE_SIZE) / U32;
    assert a == top + j * PAGE_SIZE - q * U32;
    assert top + (j + 1) * PAGE_SIZE == (a + PAGE_SIZE) + q * U32;
    ModShift(a + PAGE_SIZE, q);
  }

  lemma ModShift(x: int, q: int)
    ensures (x + q * U32) % U32 == x % U32
  {
  }

  /** Fewer than 2^20 heap pages from one top lie in pairwise different pages. */
  lemma HeapPagesApart(top: int, j: nat, i: nat)
    requires IsU32(top) && j < i < 0x10_0000
    ensures PageFrame(HeapPage(top, j)) != PageFrame(HeapPage(top, i))
  {
    var a := HeapPage(top, j);
    var b := HeapPage(top, i);
    var qa := (top + j * PAGE_SIZE) / U32;
    var qb := (top + i * PAGE_SIZE) / U32;
    assert a == top + j * PAGE_SIZE - qa * U32;
    assert b == top + i * PAGE_SIZE - qb * U32;
    var d := (i - j) - (qb - qa) * 0x10_0000;
    assert b - a == d * PAGE_SIZE;
    assert d != 0 by {
      if qb - qa > 0 {
        assert (qb - qa) * 0x10_0000 >= 0x10_0000;
      }
    }
    assert a % PAGE_SIZE == b % PAGE_SIZE;
    assert PageFrame(b) - PageFrame(a) == d * PAGE_SIZE;
  }

  /** The descriptor alloc_sbrk_pages writes for heap page a: the page's frame bits with
      ALLOC_END, DIRTY, USE and the owner. */
  function HeapWord(pb: bv32, a: int): (w: bv32)
    requires pb & 0x3F == 0 && IsU32(a)
    ensures !IsPpageFree(w) && w & 0xFFF == AllocWord(pb, true) & 0xFFF
  {
    OwnedWord(AllocWord(pb, true), a)
  }

  /** The frame index the entry of heap page j records. */
  function HeapFrame(pm: PhysMem, pd: seq<Option<seq<int>>>, top0: int, j: nat): nat
    requires DirOk(pd) && IsU32(pm.userBase)
  {
    pm.FrameIndexOf(Lookup(pd, HeapPage(top0, j)))
  }

  /** Heap page j's directory slot holds a table. */
  predicate HeapLinked(pd: seq<Option<seq<int>>>, top0: int, j: nat)
    requires |pd| == NUM_PTE
  {
    pd[PdIndex(HeapPage(top0, j))].Some?
  }

  /** What alloc_sbrk_pages's first i pages leave when every claim finds a FREE frame: no
      descriptor in use at the start changed, each of those pages whose directory slot is
      linked maps, PRESENT|DIRTY, to a managed frame that was FREE at the start and whose
      descriptor now records the page, and no two of them share a frame. */
  ghost predicate HeapMapped(pm: PhysMem, cm0: seq<bv32>, top0: int, pb: bv32,
                             cm: seq<bv32>, pd: seq<Option<seq<int>>>, i: nat)
    requires |cm0| == pm.lastPage && |cm| == pm.lastPage && IsU32(pm.userBase)
    requires IsU32(top0) && pb & 0x3F == 0 && DirOk(pd)
  {
    (forall k :: 0 <= k < |cm0| && !IsPpageFree(cm0[k]) ==> cm[k] == cm0[k])
    && (forall j :: 0 <= j < i && HeapLinked(pd, top0, j) ==>
         Lookup(pd, HeapPage(top0, j)) % PAGE_SIZE == PT_PRESENT_MASK + PT_DIRTY_MASK
         && HeapFrame(pm, pd, top0, j) < pm.lastPage
         && cm[HeapFrame(pm, pd, top0, j)] == HeapWord(pb, HeapPage(top0, j)))
    && (forall j :: 0 <= j < i && HeapLinked(pd, top0, j) ==> IsPpageFree(cm0[HeapFrame(pm, pd, top0, j)]))
    && HeapApart(pm, top0, pd, i)
  }

  /** The linked ones among the first i heap pages lie in pairwise different frames. */
  ghost predicate HeapApart(pm: PhysMem, top0: int, pd: seq<Option<seq<int>>>, i: nat)
    requires IsU32(pm.userBase) && DirOk(pd)
  {
    forall j1, j2 :: 0 <= j1 < j2 < i && HeapLinked(pd, top0, j1) && HeapLinked(pd, top0, j2) ==>
      HeapFrame(pm, pd, top0, j1) != HeapFrame(pm, pd, top0, j2)
  }

  /** Every page other than the first i heap pages from top0 reads in pd as it did in pd0. */
  ghost predicate OthersKept(pd0: seq<Option<seq<int>>>, pd: seq<Option<seq<int>>>, top0: int, i: nat)
    requires DirOk(pd0) && DirOk(pd)
  {
    forall b {:trigger Lookup(pd0, b)} ::
      IsU32(b) && (forall j :: 0 <= j < i ==> PageFrame(b) != PageFrame(HeapPage(top0, j))) ==>
      Lookup(pd, b) == Lookup(pd0, b)
  }

  /** Writing heap page i keeps every page outside the first i + 1 heap pages. */
  lemma OthersKeptStep(pd0: seq<Option<seq<int>>>, pd: seq<Option<seq<int>>>, top0: int, i: nat, v: int)
    requires DirOk(pd0) && DirOk(pd) && IsU32(v) && OthersKept(pd0, pd, top0, i)
    ensures OthersKept(pd0, SetEntry(pd, HeapPage(top0, i), v), top0, i + 1)
  {
    var a := HeapPage(top0, i);
    forall b | IsU32(b) && (forall j :: 0 <= j < i + 1 ==> PageFrame(b) != PageFrame(HeapPage(top0, j)))
      ensures Lookup(SetEntry(pd, a, v), b) == Lookup(pd0, b)
    {
      assert PageFrame(b) != PageFrame(HeapPage(top0, i));
      GetAfterSet(pd, a, v, b);
    }
  }

  /** What alloc_sbrk_pages's loop keeps after i pages, for directory cm, counter n and page
      directory pd: no table is linked, FREE words stay zero, a correct count stays correct,
      and with frames to spare (`ample`) the count drops by one per page and the pages are
      mapped as HeapMapped says. */
  ghost predicate SbrkInv(pm: PhysMem, cm0: seq<bv32>, n0: int, pd0: seq<Option<seq<int>>>, top0: int,
                          pb: bv32, ample: bool, cm: seq<bv32>, n: int, pd: seq<Option<seq<int>>>, i: nat)
    requires |cm0| == pm.lastPage && IsU32(pm.userBase) && DirOk(pd0) && IsU32(top0) && pb & 0x3F == 0
  {
    |cm| == pm.lastPage && IsU32(n) && DirOk(pd)
    && (forall d :: 0 <= d < NUM_PTE ==> (pd[d].Some? <==> pd0[d].Some?))
    && (FreeIsZero(cm0) ==> FreeIsZero(cm))
    && (n0 == CountFree(cm0) ==> n == CountFree(cm))
    && (ample ==> n0 == CountFree(cm0) && n + i == n0 && HeapMapped(pm, cm0, top0, pb, cm, pd, i))
  }

  /** alloc_sbrk_pages: when nfreepages exceeds npages, claims npages frames one at a time
      with acquire_one_page, writes each frame's descriptor (the heap page's address with
      ALLOC_END|DIRTY|USE and the owner) and sets the heap page's entry to frame|PRESENT|DIRTY
      with as_set_pt_entry, which drops the entry when the page's directory slot has no table;
      then stores the new heap top and invalidates the TLB. The owner is the current process's
      pid, shifted (pb). It always returns 0, which is not modelled. */
  method AllocSbrkPages(pm: PhysMem, tlb: Tlb.Tlb, space: AddrSpace, npages: nat, pb: bv32)
    requires pm.Valid() && tlb.Valid() && space.Valid() && pb & 0x3F == 0 && IsU32(npages)
    modifies pm`nfreepages, pm`nextFree, pm.coremap, space`pagedir, space`heapTop, tlb`entries
    ensures pm.Valid() && space.Valid() && tlb.Valid()
    ensures forall t :: 0 <= t < Tlb.NUM_TLB ==> tlb.entries[t] == Tlb.Invalid
    ensures old(pm.nfreepages) <= npages ==>
      space.heapTop == old(space.heapTop) && space.pagedir == old(space.pagedir)
      && pm.coremap[..] == old(pm.coremap[..]) && pm.nfreepages == old(pm.nfreepages) && pm.nextFree == old(pm.nextFree)
    ensures old(pm.nfreepages) > npages ==> space.heapTop == HeapPage(old(space.heapTop), npages)
    ensures forall b :: IsU32(b) && (forall j :: 0 <= j < npages ==> PageFrame(b) != PageFrame(HeapPage(old(space.heapTop), j))) ==>
      Lookup(space.pagedir, b) == Lookup(old(space.pagedir), b)
    ensures forall d :: 0 <= d < NUM_PTE ==> (space.pagedir[d].Some? <==> old(space.pagedir)[d].Some?)
    ensures old(pm.Counted()) ==> pm.Counted()
    ensures old(FreeIsZero(pm.coremap[..])) ==> FreeIsZero(pm.coremap[..])
    ensures old(pm.Counted()) && old(pm.nfreepages) > npages ==>
      pm.nfreepages == old(pm.nfreepages) - npages
      && HeapMapped(pm, old(pm.coremap[..]), old(space.heapTop), pb, pm.coremap[..], space.pagedir, npages)
  {
    ghost var cm0 := pm.coremap[..];
    ghost var n0 := pm.nfreepages;
    ghost var pd0 := space.pagedir;
    ghost var top0 := space.heapTop;
    ghost var ample := n0 == CountFree(cm0) && n0 > npages;
    var top := space.heapTop;
    if pm.nfreepages > npages {
      top := SbrkLoop(pm, space, npages, pb, cm0, n0, pd0, ample);
    } else {
      SbrkInvStart(pm, cm0, n0, pd0, top0, pb, false);
    }
    space.heapTop := top;
    tlb.Invalidate();
  }

  /** The page loop of alloc_sbrk_pages: npages pages, each claimed, described and mapped
      by SbrkPage, with the heap top advanced a page at a time. */
  method SbrkLoop(pm: PhysMem, space: AddrSpace, npages: nat, pb: bv32, ghost cm0: seq<bv32>, ghost n0: int,
                  ghost pd0: seq<Option<seq<int>>>, ghost ample: bool) returns (top: int)
    requires pm.Valid() && space.Valid() && pb & 0x3F == 0 && IsU32(npages)
    requires cm0 == pm.coremap[..] && n0 == pm.nfreepages && pd0 == space.pagedir
    requires ample == (n0 == CountFree(cm0) && n0 > npages)
    modifies pm`nfreepages, pm`nextFree, pm.coremap, space`pagedir
    ensures pm.Valid() && space.Valid() && top == HeapPage(space.heapTop, npages)
    ensures SbrkInv(pm, cm0, n0, pd0, space.heapTop, pb, ample, pm.coremap[..], pm.nfreepages, space.pagedir, npages)
    ensures OthersKept(pd0, space.pagedir, space.heapTop, npages)
  {
    ghost var top0 := space.heapTop;
    top := space.heapTop;
    SbrkInvStart(pm, cm0, n0, pd0, top0, pb, ample);
    var i := 0;
    while i < npages
      invariant pm.Valid() && space.Valid() && i <= npages && top == HeapPage(top0, i)
      invariant space.heapTop == top0
      invariant SbrkInv(pm, cm0, n0, pd0, top0, pb, ample, pm.coremap[..], pm.nfreepages, space.pagedir, i)
      invariant OthersKept(pd0, space.pagedir, top0, i)
    {
      ghost var pd := space.pagedir;
      ghost var v := SbrkSlot(pm, space, top, pb, cm0, n0, pd0, top0, ample, npages, i);
      OthersKeptStep(pd0, pd, top0, i, v);
      HeapPageNext(top0, i);
      top := Wrap32(top + PAGE_SIZE);
      i := i + 1;
    }
  }

  /** Page i of alloc_sbrk_pages, the heap page at `top`, keeps the loop invariant. */
  method SbrkSlot(pm: PhysMem, space: AddrSpace, top: int, pb: bv32, ghost cm0: seq<bv32>, ghost n0: int,
                  ghost pd0: seq<Option<seq<int>>>, ghost top0: int, ghost ample: bool, ghost npages: nat, ghost i: nat)
    returns (ghost v: int)
    requires pm.Valid() && space.Valid() && pb & 0x3F == 0 && IsU32(top0) && top == HeapPage(top0, i)
    requires |cm0| == pm.lastPage && DirOk(pd0) && i < npages && (ample ==> n0 > npages)
    requires SbrkInv(pm, cm0, n0, pd0, top0, pb, ample, pm.coremap[..], pm.nfreepages, space.pagedir, i)
    modifies pm`nfreepages, pm`nextFree, pm.coremap, space`pagedir
    ensures pm.Valid() && space.Valid() && space.heapTop == old(space.heapTop)
    ensures SbrkInv(pm, cm0, n0, pd0, top0, pb, ample, pm.coremap[..], pm.nfreepages, space.pagedir, i + 1)
    ensures IsU32(v) && space.pagedir == SetEntry(old(space.pagedir), top, v)
  {
    ghost var cm := pm.coremap[..];
    ghost var n := pm.nfreepages;
    ghost var pd := space.pagedir;
    ghost var cursor := pm.nextFree;
    ghost var k := OneFrame(cm, cursor);
    ghost var n1 := if ScanFree(cm, cursor, 0).Some? then Wrap32(n - 1) else n;
    SbrkPage(pm, space, top, pb);
    v := pm.FrameAddr(k) + PT_PRESENT_MASK + PT_DIRTY_MASK;
    SbrkStep(pm, cm0, n0, pd0, top0, pb, ample, npages, cm, n, pd, i, cursor, k, n1,
             pm.coremap[..], space.pagedir);
  }

  /** The loop invariant of alloc_sbrk_pages holds before the first page. */
  lemma SbrkInvStart(pm: PhysMem, cm0: seq<bv32>, n0: int, pd0: seq<Option<seq<int>>>, top0: int,
                     pb: bv32, ample: bool)
    requires |cm0| == pm.lastPage && IsU32(pm.userBase) && DirOk(pd0) && IsU32(top0) && pb & 0x3F == 0
    requires IsU32(n0) && (ample ==> n0 == CountFree(cm0))
    ensures SbrkInv(pm, cm0, n0, pd0, top0, pb, ample, cm0, n0, pd0, 0)
  {
  }

  /** One page of alloc_sbrk_pages: acquire_one_page, the descriptor of the heap page at
      `top` written onto the frame, and the page's entry set to frame|PRESENT|DIRTY. */
  method SbrkPage(pm: PhysMem, space: AddrSpace, top: int, pb: bv32)
    requires pm.Valid() && space.Valid() && IsU32(top) && pb & 0x3F == 0
    modifies pm`nfreepages, pm`nextFree, pm.coremap, space`pagedir
    ensures pm.Valid() && space.Valid()
    ensures var k := OneFrame(old(pm.coremap[..]), old(pm.nextFree));
      pm.coremap[..] == old(pm.coremap[..])[k := HeapWord(pb, top)]
      && pm.nfreepages == (if ScanFree(old(pm.coremap[..]), old(pm.nextFree), 0).Some?
                           then Wrap32(old(pm.nfreepages) - 1) else old(pm.nfreepages))
      && space.pagedir == SetEntry(old(space.pagedir), top, pm.FrameAddr(k) + PT_PRESENT_MASK + PT_DIRTY_MASK)
  {
    ghost var cm := pm.coremap[..];
    ghost var cursor := pm.nextFree;
    ghost var k := OneFrame(cm, cursor);
    var vaddr := pm.AcquireOnePage(pb);
    assert pm.coremap[..] == cm[k := OneFrameWord(cm, cursor, pb)];
    FrameEntryIndex(pm, k, PT_PRESENT_MASK + PT_DIRTY_MASK);
    // the frame is page-aligned, so ORing in the flag bits adds them
    var pte := PageFrame(vaddr) + PT_PRESENT_MASK + PT_DIRTY_MASK;
    var cmidx := Wrap32(PageFrame(vaddr) - pm.userBase) / PAGE_SIZE;
    assert cmidx == k;
    pm.coremap[cmidx] := HeapWord(pb, top);
    assert pm.coremap[..] == cm[k := HeapWord(pb, top)];
    space.AsSetPtEntry(top, pte);
  }

  /** The loop invariant of alloc_sbrk_pages survives one page. */
  lemma SbrkStep(pm: PhysMem, cm0: seq<bv32>, n0: int, pd0: seq<Option<seq<int>>>, top0: int, pb: bv32,
                 ample: bool, npages: nat, cm: seq<bv32>, n: int, pd: seq<Option<seq<int>>>, i: nat, cursor: nat,
                 k: nat, n1: int, cm2: seq<bv32>, pd2: seq<Option<seq<int>>>)
    requires pm.Valid() && |cm0| == pm.lastPage && DirOk(pd0) && IsU32(top0) && pb & 0x3F == 0
    requires i < npages && cursor < pm.lastPage && (ample ==> n0 > npages)
    requires SbrkInv(pm, cm0, n0, pd0, top0, pb, ample, cm, n, pd, i)
    requires k == OneFrame(cm, cursor)
    requires n1 == if ScanFree(cm, cursor, 0).Some? then Wrap32(n - 1) else n
    requires cm2 == cm[k := HeapWord(pb, HeapPage(top0, i))]
    requires DirOk(pd) && pd2 == SetEntry(pd, HeapPage(top0, i), pm.FrameAddr(k) + PT_PRESENT_MASK + PT_DIRTY_MASK)
    ensures k < pm.lastPage
    ensures SbrkInv(pm, cm0, n0, pd0, top0, pb, ample, cm2, n1, pd2, i + 1)
  {
    var a := HeapPage(top0, i);
    var w := HeapWord(pb, a);
    var v := pm.FrameAddr(k) + PT_PRESENT_MASK + PT_DIRTY_MASK;
    FrameEntryIndex(pm, k, PT_PRESENT_MASK + PT_DIRTY_MASK);
    OneFrameInUse(cm, cursor, pb);
    ClaimOneKeepsCount(cm, n, cursor, AllocWord(pb, true));
    ScanFreeSpec(cm, cursor, 0);
    assert ScanFree(cm, cursor, 0).Some? ==> OneFrameWord(cm, cursor, pb) == AllocWord(pb, true);
    CountFreeUpdate(cm, k, w);
    if ample {
      SbrkMapStep(pm, cm0, top0, pb, cm, pd, i, k);
    }
  }

  /** With frames to spare, page i's frame is a formerly FREE one, so the earlier pages'
      frames and mappings stay as they were. */
  lemma SbrkMapStep(pm: PhysMem, cm0: seq<bv32>, top0: int, pb: bv32, cm: seq<bv32>,
                    pd: seq<Option<seq<int>>>, i: nat, k: nat)
    requires pm.Valid() && |cm0| == pm.lastPage && |cm| == pm.lastPage && IsU32(top0) && pb & 0x3F == 0
    requires DirOk(pd) && k < pm.lastPage && IsPpageFree(cm[k]) && i < 0x10_0000
    requires HeapMapped(pm, cm0, top0, pb, cm, pd, i)
    ensures HeapMapped(pm, cm0, top0, pb, cm[k := HeapWord(pb, HeapPage(top0, i))],
                       SetEntry(pd, HeapPage(top0, i), pm.FrameAddr(k) + PT_PRESENT_MASK + PT_DIRTY_MASK), i + 1)
  {
    var a := HeapPage(top0, i);
    var v := pm.FrameAddr(k) + PT_PRESENT_MASK + PT_DIRTY_MASK;
    var cm2 := cm[k := HeapWord(pb, a)];
    FrameEntryIndex(pm, k, PT_PRESENT_MASK + PT_DIRTY_MASK);
    var pd2 := SetEntry(pd, a, v);
    forall j | 0 <= j < i + 1 && HeapLinked(pd2, top0, j)
      ensures Lookup(pd2, HeapPage(top0, j)) % PAGE_SIZE == PT_PRESENT_MASK + PT_DIRTY_MASK
        && HeapFrame(pm, pd2, top0, j) < pm.lastPage
        && IsPpageFree(cm0[HeapFrame(pm, pd2, top0, j)])
        && cm2[HeapFrame(pm, pd2, top0, j)] == HeapWord(pb, HeapPage(top0, j))
    {
      var b := HeapPage(top0, j);
      if j == i {
        GetAfterSet(pd, a, v, a);
        // k is FREE in cm, and no word in use at the start has changed
        assert !IsPpageFree(cm0[k]) ==> cm[k] == cm0[k];
      } else {
        HeapPagesApart(top0, j, i);
        GetAfterSet(pd, a, v, b);
        var e := Lookup(pd, b);
        assert pm.FrameIndexOf(e) != k by {
          assert !IsPpageFree(cm[pm.FrameIndexOf(e)]);
        }
      }
    }
    SbrkApartStep(pm, cm0, top0, pb, cm, pd, i, k);
  }

  /** The frame given to page i was FREE, so it differs from the earlier pages' frames. */
  lemma SbrkApartStep(pm: PhysMem, cm0: seq<bv32>, top0: int, pb: bv32, cm: seq<bv32>,
                      pd: seq<Option<seq<int>>>, i: nat, k: nat)
    requires pm.Valid() && |cm0| == pm.lastPage && |cm| == pm.lastPage && IsU32(top0) && pb & 0x3F == 0
    requires DirOk(pd) && k < pm.lastPage && IsPpageFree(cm[k]) && i < 0x10_0000
    requires HeapMapped(pm, cm0, top0, pb, cm, pd, i)
    ensures HeapApart(pm, top0, SetEntry(pd, HeapPage(top0, i), pm.FrameAddr(k) + PT_PRESENT_MASK + PT_DIRTY_MASK), i + 1)
  {
    var a := HeapPage(top0, i);
    var v := pm.FrameAddr(k) + PT_PRESENT_MASK + PT_DIRTY_MASK;
    FrameEntryIndex(pm, k, PT_PRESENT_MASK + PT_DIRTY_MASK);
    var pd2 := SetEntry(pd, a, v);
    forall j | 0 <= j < i
      ensures HeapLinked(pd2, top0, j) == HeapLinked(pd, top0, j)
      ensures HeapFrame(pm, pd2, top0, j) == HeapFrame(pm, pd, top0, j)
    {
      HeapPagesApart(top0, j, i);
      GetAfterSet(pd, a, v, HeapPage(top0, j));
    }
    GetAfterSet(pd, a, v, a);
    forall j | 0 <= j < i && HeapLinked(pd2, top0, j) && HeapLinked(pd2, top0, i)
      ensures HeapFrame(pm, pd2, top0, j) != HeapFrame(pm, pd2, top0, i)
    {
      assert !IsPpageFree(cm[HeapFrame(pm, pd, top0, j)]);
    }
  }

  /** `as_heap_top - npages * PAGE_SIZE` in unsigned arithmetic: the heap top free_sbrk_pages stores. */
  function FreedTop(top: int, npages: nat): (t: int)
    ensures IsU32(t)
  {
    (top - npages * PAGE_SIZE) % U32
  }

  /** Raising the heap top by npages pages and lowering it by as many, in either order,
      gives back the heap top. */
  lemma HeapTopRoundTrip(top: int, npages: nat)
    requires IsU32(top)
    ensures FreedTop(HeapPage(top, npages), npages) == top
    ensures HeapPage(FreedTop(top, npages), npages) == top
  {
    var q := (top + npages * PAGE_SIZE) / U32;
    assert HeapPage(top, npages) - npages * PAGE_SIZE == top + (-q) * U32;
    ModShift(top, -q);
    var r := (top - npages * PAGE_SIZE) / U32;
    assert FreedTop(top, npages) + npages * PAGE_SIZE == top + (-r) * U32;
    ModShift(top, -r);
  }

  /** The frame indices the entries of the first i heap pages from top record. */
  function HeapFrames(pm: PhysMem, pd: seq<Option<seq<int>>>, top: int, i: nat): (fs: seq<nat>)
    requires DirOk(pd) && IsU32(pm.userBase)
    ensures |fs| == i && forall j :: 0 <= j < i ==> fs[j] == HeapFrame(pm, pd, top, j)
  {
    seq(i, j requires 0 <= j => HeapFrame(pm, pd, top, j))
  }

  /** The directory once each frame of fs has been written PP_FREE (an index past the
      directory, which free_sbrk_pages's callers must not produce, writes nothing here). */
  function ClearFrames(cm: seq<bv32>, fs: seq<nat>): (r: seq<bv32>)
    ensures |r| == |cm|
  {
    if fs == [] then cm
    else
      var r := ClearFrames(cm, fs[..|fs| - 1]);
      if fs[|fs| - 1] < |r| then r[fs[|fs| - 1] := PP_FREE] else r
  }

  /** After the clearing, exactly the listed frames read PP_FREE; every other descriptor is
      as it was. */
  lemma {:induction false} ClearFramesAt(cm: seq<bv32>, fs: seq<nat>, k: nat)
    requires forall j :: 0 <= j < |fs| ==> fs[j] < |cm|
    requires k < |cm|
    ensures ClearFrames(cm, fs)[k] == if k in fs then PP_FREE else cm[k]
  {
    if fs != [] {
      ClearFramesAt(cm, fs[..|fs| - 1], k);
      assert fs == fs[..|fs| - 1] + [fs[|fs| - 1]];
    }
  }

  /** Freeing distinct frames that were all in use raises the free count by their number. */
  lemma {:induction false} ClearFramesCount(cm: seq<bv32>, fs: seq<nat>)
    requires forall j :: 0 <= j < |fs| ==> fs[j] < |cm| && !IsPpageFree(cm[fs[j]])
    requires forall j1, j2 :: 0 <= j1 < j2 < |fs| ==> fs[j1] != fs[j2]
    ensures CountFree(ClearFrames(cm, fs)) == CountFree(cm) + |fs|
  {
    if fs != [] {
      var init := fs[..|fs| - 1];
      var f := fs[|fs| - 1];
      ClearFramesCount(cm, init);
      var r := ClearFrames(cm, init);
      assert f !in init;
      ClearFramesAt(cm, init, f);
      CountFreeUpdate(r, f, PP_FREE);
    }
  }

  /** free_sbrk_pages raises nfreepages once per page whatever the frame's state: a frame
      that is already FREE (a heap page whose entry names a released frame) is counted again. */
  lemma FreeOfFreeFrameOvercounts(cm: seq<bv32>, f: nat)
    requires f < |cm| && IsPpageFree(cm[f])
    ensures CountFree(ClearFrames(cm, [f])) == CountFree(cm)
  {
    assert ClearFrames(cm, [f]) == ClearFrames(cm, [])[f := PP_FREE];
    CountFreeUpdate(cm, f, PP_FREE);
  }

  /** An entry of 0, an unmapped page, names no managed frame: the directory index it gives
      lies past the last frame. */
  lemma ZeroEntryUnmanaged(pm: PhysMem)
    requires pm.Valid()
    ensures pm.FrameIndexOf(0) >= pm.lastPage
  {
    Wrap32IsMod(0 - pm.userBase);
    assert Wrap32(0 - pm.userBase) == U32 - pm.userBase;
  }

  /** Address b lies in none of the first i heap pages from top. */
  predicate OutsideHeap(top: int, i: nat, b: int)
    requires IsU32(b)
  {
    forall j :: 0 <= j < i ==> PageFrame(b) != PageFrame(HeapPage(top, j))
  }

  /** The page directory once the entries of the first i heap pages from top are zeroed. */
  function ZeroPages(pd: seq<Option<seq<int>>>, top: int, i: nat): (r: seq<Option<seq<int>>>)
    requires DirOk(pd)
    ensures DirOk(r) && forall d :: 0 <= d < NUM_PTE ==> (r[d].Some? <==> pd[d].Some?)
  {
    if i == 0 then pd else SetEntry(ZeroPages(pd, top, i - 1), HeapPage(top, i - 1), 0)
  }

  /** After the zeroing, the entry of every one of those pages reads 0 and every other
      entry reads as before. */
  lemma {:induction false} ZeroPagesLookup(pd: seq<Option<seq<int>>>, top: int, i: nat, b: int)
    requires DirOk(pd) && IsU32(b)
    ensures Lookup(ZeroPages(pd, top, i), b) == if OutsideHeap(top, i, b) then Lookup(pd, b) else 0
  {
    if i > 0 {
      var a := HeapPage(top, i - 1);
      ZeroPagesLookup(pd, top, i - 1, b);
      GetAfterSet(ZeroPages(pd, top, i - 1), a, 0, b);
      if PageFrame(b) == PageFrame(a) {
        IndexSplit(a, b);
        assert !OutsideHeap(top, i, b);
      } else if !OutsideHeap(top, i - 1, b) {
        var j :| 0 <= j < i - 1 && PageFrame(b) == PageFrame(HeapPage(top, j));
        assert !OutsideHeap(top, i, b);
      }
    }
  }

  /** What free_sbrk_pages's loop keeps after i pages of the frame directory and the
      counter: those pages' frames are written FREE and the counter is raised by i. */
  ghost predicate FreeVals(pm: PhysMem, cm0: seq<bv32>, n0: int, pd0: seq<Option<seq<int>>>, top: int,
                           cm: seq<bv32>, n: int, i: nat)
    requires IsU32(pm.userBase) && DirOk(pd0)
  {
    cm == ClearFrames(cm0, HeapFrames(pm, pd0, top, i)) && n == (n0 + i) % U32
  }

  /** free_sbrk_pages: with npages > 0, lowers the heap top by npages pages and, for each page
      from the new top up, reads its entry with as_get_pt_entry, writes PP_FREE onto the frame
      the entry names, zeroes the entry and raises nfreepages. The frames are not checked: the
      caller must name pages whose entries hold managed frames (an unmapped page's entry of 0
      indexes past the directory), and at most 2^20 of them (more revisit a page whose entry is
      already 0). It leaves the TLB alone and always returns 0. */
  method FreeSbrkPages(pm: PhysMem, space: AddrSpace, npages: nat)
    requires pm.Valid() && space.Valid() && npages <= 0x10_0000
    requires forall j :: 0 <= j < npages ==>
      HeapFrame(pm, space.pagedir, FreedTop(space.heapTop, npages), j) < pm.lastPage
    modifies pm`nfreepages, pm.coremap, space`pagedir, space`heapTop
    ensures pm.Valid() && space.Valid()
    ensures space.heapTop == FreedTop(old(space.heapTop), npages)
    ensures pm.coremap[..] == ClearFrames(old(pm.coremap[..]), HeapFrames(pm, old(space.pagedir), space.heapTop, npages))
    ensures pm.nfreepages == (old(pm.nfreepages) + npages) % U32
    ensures space.pagedir == ZeroPages(old(space.pagedir), space.heapTop, npages)
  {
    if npages > 0 {
      var top := FreedTop(space.heapTop, npages);
      space.heapTop := top;
      FreeLoop(pm, space, top, npages);
    }
  }

  /** The loop of free_sbrk_pages over the npages pages from the new top `top` up. */
  method FreeLoop(pm: PhysMem, space: AddrSpace, top: int, npages: nat)
    requires pm.Valid() && space.Valid() && npages <= 0x10_0000 && IsU32(top)
    requires forall j :: 0 <= j < npages ==> HeapFrame(pm, space.pagedir, top, j) < pm.lastPage
    modifies pm`nfreepages, pm.coremap, space`pagedir
    ensures pm.Valid() && space.Valid() && space.heapTop == old(space.heapTop)
    ensures FreeVals(pm, old(pm.coremap[..]), old(pm.nfreepages), old(space.pagedir), top,
                     pm.coremap[..], pm.nfreepages, npages)
    ensures space.pagedir == ZeroPages(old(space.pagedir), top, npages)
  {
    ghost var cm0 := pm.coremap[..];
    ghost var n0 := pm.nfreepages;
    ghost var pd0 := space.pagedir;
    ghost var top0 := space.heapTop;
    var a := top;
    var i := 0;
    while i < npages
      invariant pm.Valid() && space.Valid() && i <= npages && a == HeapPage(top, i)
      invariant space.heapTop == top0 && space.pagedir == ZeroPages(pd0, top, i)
      invariant FreeVals(pm, cm0, n0, pd0, top, pm.coremap[..], pm.nfreepages, i)
    {
      FreeLookupUnchanged(pd0, top, i);
      FreeSlot(pm, space, a, cm0, n0, pd0, top, i);
      ZeroPagesStep(pd0, top, i);
      HeapPageNext(top, i);
      a := Wrap32(a + PAGE_SIZE);
      i := i + 1;
    }
  }

  /** Page i of free_sbrk_pages, the heap page at `a` whose entry is still the original one,
      keeps the loop invariant and zeroes that entry. */
  method FreeSlot(pm: PhysMem, space: AddrSpace, a: int, ghost cm0: seq<bv32>, ghost n0: int,
                  ghost pd0: seq<Option<seq<int>>>, ghost top: int, ghost i: nat)
    requires pm.Valid() && space.Valid() && IsU32(top) && a == HeapPage(top, i)
    requires |cm0| == pm.lastPage && DirOk(pd0) && 0 <= n0
    requires HeapFrame(pm, pd0, top, i) < pm.lastPage && Lookup(space.pagedir, a) == Lookup(pd0, a)
    requires FreeVals(pm, cm0, n0, pd0, top, pm.coremap[..], pm.nfreepages, i)
    modifies pm`nfreepages, pm.coremap, space`pagedir
    ensures pm.Valid() && space.Valid() && space.heapTop == old(space.heapTop)
    ensures space.pagedir == SetEntry(old(space.pagedir), a, 0)
    ensures FreeVals(pm, cm0, n0, pd0, top, pm.coremap[..], pm.nfreepages, i + 1)
  {
    ghost var cm := pm.coremap[..];
    ghost var n := pm.nfreepages;
    FreeHeapPage(pm, space, a);
    FreeStep(pm, cm0, n0, pd0, top, cm, n, i);
  }

  /** Zeroing one more heap page's entry is the next step of ZeroPages. */
  lemma ZeroPagesStep(pd0: seq<Option<seq<int>>>, top: int, i: nat)
    requires DirOk(pd0)
    ensures ZeroPages(pd0, top, i + 1) == SetEntry(ZeroPages(pd0, top, i), HeapPage(top, i), 0)
  {
  }

  /** Page i has not been visited yet, so its entry is the one free_sbrk_pages started with. */
  lemma FreeLookupUnchanged(pd0: seq<Option<seq<int>>>, top: int, i: nat)
    requires DirOk(pd0) && IsU32(top) && i < 0x10_0000
    ensures Lookup(ZeroPages(pd0, top, i), HeapPage(top, i)) == Lookup(pd0, HeapPage(top, i))
  {
    forall j | 0 <= j < i
      ensures PageFrame(HeapPage(top, i)) != PageFrame(HeapPage(top, j))
    {
      HeapPagesApart(top, j, i);
    }
    ZeroPagesLookup(pd0, top, i, HeapPage(top, i));
  }

  /** One page of free_sbrk_pages: the entry read, the frame it names written PP_FREE, the
      entry zeroed and the counter raised. The entry names a managed frame, so the page's
      directory slot holds a table and as_get_pt_entry allocates none. */
  method FreeHeapPage(pm: PhysMem, space: AddrSpace, a: int)
    requires pm.Valid() && space.Valid() && IsU32(a)
    requires pm.FrameIndexOf(Lookup(space.pagedir, a)) < pm.lastPage
    modifies pm`nfreepages, pm.coremap, space`pagedir
    ensures pm.Valid() && space.Valid()
    ensures pm.coremap[..] == old(pm.coremap[..])[pm.FrameIndexOf(Lookup(old(space.pagedir), a)) := PP_FREE]
    ensures pm.nfreepages == Wrap32(old(pm.nfreepages) + 1)
    ensures space.pagedir == SetEntry(old(space.pagedir), a, 0)
  {
    ZeroEntryUnmanaged(pm);
    ghost var pd := space.pagedir;
    var err, pte := space.AsGetPtEntry(a, true);
    assert space.pagedir == pd;
    var cmidx := Wrap32(PageFrame(pte) - pm.userBase) / PAGE_SIZE;
    pm.coremap[cmidx] := PP_FREE;
    space.AsSetPtEntry(a, 0);
    pm.nfreepages := Wrap32(pm.nfreepages + 1);
  }

  /** Raising a wrapped counter by one in unsigned arithmetic wraps the raised count. */
  lemma CountUpWraps(n: int, x: nat)
    requires n == x % U32
    ensures Wrap32(n + 1) == (x + 1) % U32
  {
    Wrap32IsMod(n + 1);
    ModShift(x + 1, -(x / U32));
  }

  /** The value part of free_sbrk_pages's loop invariant survives one page. */
  lemma FreeStep(pm: PhysMem, cm0: seq<bv32>, n0: int, pd0: seq<Option<seq<int>>>, top: int,
                 cm: seq<bv32>, n: int, i: nat)
    requires |cm0| == pm.lastPage && IsU32(pm.userBase) && DirOk(pd0) && 0 <= n0
    requires HeapFrame(pm, pd0, top, i) < pm.lastPage
    requires FreeVals(pm, cm0, n0, pd0, top, cm, n, i)
    ensures FreeVals(pm, cm0, n0, pd0, top, cm[HeapFrame(pm, pd0, top, i) := PP_FREE], Wrap32(n + 1), i + 1)
  {
    CountUpWraps(n, n0 + i);
    ClearFramesStep(pm, cm0, pd0, top, i);
  }

  /** Clearing one more heap page's frame extends the cleared directory by that frame. */
  lemma ClearFramesStep(pm: PhysMem, cm0: seq<bv32>, pd0: seq<Option<seq<int>>>, top: int, i: nat)
    requires |cm0| == pm.lastPage && IsU32(pm.userBase) && DirOk(pd0)
    requires HeapFrame(pm, pd0, top, i) < pm.lastPage
    ensures ClearFrames(cm0, HeapFrames(pm, pd0, top, i + 1))
         == ClearFrames(cm0, HeapFrames(pm, pd0, top, i))[HeapFrame(pm, pd0, top, i) := PP_FREE]
  {
    var fs := HeapFrames(pm, pd0, top, i + 1);
    assert fs[..i] == HeapFrames(pm, pd0, top, i);
  }

  /** free_sbrk_pages right after alloc_sbrk_pages of as many pages, when every one of those
      pages' directory slots held a table: the heap top comes back to where it was, every
      page names a managed frame as free_sbrk_pages needs, and since the frames are distinct
      and in use, freeing them raises the free count by exactly npages. */
  lemma SbrkFreeRoundTrip(pm: PhysMem, cm0: seq<bv32>, top0: int, pb: bv32, cm: seq<bv32>,
                          pd: seq<Option<seq<int>>>, npages: nat)
    requires pm.Valid() && |cm0| == pm.lastPage && |cm| == pm.lastPage && IsU32(top0) && pb & 0x3F == 0
    requires DirOk(pd) && HeapMapped(pm, cm0, top0, pb, cm, pd, npages)
    requires forall j :: 0 <= j < npages ==> HeapLinked(pd, top0, j)
    ensures FreedTop(HeapPage(top0, npages), npages) == top0
    ensures forall j :: 0 <= j < npages ==>
      HeapFrame(pm, pd, FreedTop(HeapPage(top0, npages), npages), j) < pm.lastPage
    ensures CountFree(ClearFrames(cm, HeapFrames(pm, pd, top0, npages))) == CountFree(cm) + npages
  {
    HeapTopRoundTrip(top0, npages);
    var fs := HeapFrames(pm, pd, top0, npages);
    forall j | 0 <= j < npages
      ensures fs[j] < |cm| && !IsPpageFree(cm[fs[j]])
    {
      assert cm[fs[j]] == HeapWord(pb, HeapPage(top0, j));
    }
    ClearFramesCount(cm, fs);
  }
}
