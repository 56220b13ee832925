/** A process address space: four segments (code, data, stack, heap) given by half-open
    bounds and a permission word each, and a two-level page table. The directory has NUM_PTE
    slots, each empty or linked to a table of NUM_PTE entries; an address splits into a
    10-bit directory index, a 10-bit table index and a 12-bit page offset. Tables are values
    here: no table is ever linked into two directories. */
module AddrSpaces {
  import opened Common
  import opened Coremap

  const NUM_PTE: nat := 1024
  const PFN_BITS: nat := 10
  const PFN_MASK: int := 0x3FF

  /** USERSTACK on MIPS: the top of the user segment. */
  const USERSTACK: int := 0x8000_0000

  /** Segment permission flags and page-table entry flags (values of the address-space header). */
  const AS_EXECUTABLE: bv32 := 1
  const AS_WRITEABLE: bv32 := 2
  const AS_READABLE: bv32 := 4
  const PT_PRESENT_MASK: int := 1
  const PT_DIRTY_MASK: int := 2
  const PT_USED_MASK: int := 4

  /** A page table: NUM_PTE 32-bit entries, each a frame address ORed with flag bits. */
  predicate TableOk(t: seq<int>) {
    |t| == NUM_PTE && forall j :: 0 <= j < |t| ==> IsU32(t[j])
  }

  /** A page directory: NUM_PTE slots, each empty (0) or linked to a table. */
  predicate DirOk(pd: seq<Option<seq<int>>>) {
    |pd| == NUM_PTE && forall i :: 0 <= i < |pd| && pd[i].Some? ==> TableOk(pd[i].value)
  }

  /** create_pagetable: a zeroed table. */
  function EmptyTable(): (t: seq<int>)
    ensures TableOk(t)
  {
    seq(NUM_PTE, _ => 0)
  }

  /** `addr >> 22`: the directory index. */
  function PdIndex(a: int): (i: nat)
    requires IsU32(a)
    ensures i < NUM_PTE
  {
    a / 0x40_0000
  }

  /** `(addr >> 12) & 0x3FF`: the table index. */
  function PtIndex(a: int): (j: nat)
    requires IsU32(a)
    ensures j < NUM_PTE
  {
    (a / 4096) % 1024
  }

  /** The two indices and the page offset recompose the address, so two addresses share a
      directory slot and a table entry exactly when they lie in the same page. */
  lemma IndexSplit(a: int, b: int)
    requires IsU32(a) && IsU32(b)
    ensures a == PdIndex(a) * 0x40_0000 + PtIndex(a) * 4096 + a % 4096
    ensures (PdIndex(a) == PdIndex(b) && PtIndex(a) == PtIndex(b)) <==> PageFrame(a) == PageFrame(b)
  {
    var p := a / 4096;
    var q := b / 4096;
    assert a == p * 4096 + a % 4096;
    assert p == PdIndex(a) * 1024 + PtIndex(a);
    assert PageFrame(a) == p * 4096 && PageFrame(b) == q * 4096;
    assert q == PdIndex(b) * 1024 + PtIndex(b);
  }

  /** The entry as_get_pt_entry reports for an address: the table's entry when the slot is
      linked, and 0 (the zeroed table it links) when it is not. */
  function Lookup(pd: seq<Option<seq<int>>>, a: int): (e: int)
    requires DirOk(pd) && IsU32(a)
    ensures IsU32(e)
  {
    match pd[PdIndex(a)]
    case None => 0
    case Some(t) => t[PtIndex(a)]
  }

  /** The directory after as_set_pt_entry: the write reaches a linked table; for an empty
      slot it goes into a fresh table that is never linked, so the directory is unchanged. */
  function SetEntry(pd: seq<Option<seq<int>>>, a: int, v: int): (r: seq<Option<seq<int>>>)
    requires DirOk(pd) && IsU32(a) && IsU32(v)
    ensures DirOk(r)
    ensures forall i :: 0 <= i < NUM_PTE ==> (r[i].Some? <==> pd[i].Some?)
  {
    match pd[PdIndex(a)]
    case None => pd
    case Some(t) => pd[PdIndex(a) := Some(t[PtIndex(a) := v])]
  }

  /** The directory after as_get_pt_entry: an empty slot is linked to a zeroed table. */
  function Link(pd: seq<Option<seq<int>>>, a: int): (r: seq<Option<seq<int>>>)
    requires DirOk(pd) && IsU32(a)
    ensures DirOk(r) && r[PdIndex(a)].Some?
  {
    if pd[PdIndex(a)].None? then pd[PdIndex(a) := Some(EmptyTable())] else pd
  }

  /** Reading back a write: the value written when the slot was linked, 0 when it was not;
      entries of other pages are untouched. */
  lemma GetAfterSet(pd: seq<Option<seq<int>>>, a: int, v: int, b: int)
    requires DirOk(pd) && IsU32(a) && IsU32(v) && IsU32(b)
    ensures Lookup(SetEntry(pd, a, v), a) == if pd[PdIndex(a)].Some? then v else 0
    ensures PageFrame(a) != PageFrame(b) ==> Lookup(SetEntry(pd, a, v), b) == Lookup(pd, b)
  {
    IndexSplit(a, b);
  }

  /** Linking an empty table changes no lookup. */
  lemma LinkKeepsLookup(pd: seq<Option<seq<int>>>, a: int, b: int)
    requires DirOk(pd) && IsU32(a) && IsU32(b)
    ensures Lookup(Link(pd, a), b) == Lookup(pd, b)
  {
  }

  /** The lost write: setting an entry under an empty slot leaves every lookup as it was. */
  lemma SetUnlinkedIsLost(pd: seq<Option<seq<int>>>, a: int, v: int)
    requires DirOk(pd) && IsU32(a) && IsU32(v) && pd[PdIndex(a)].None?
    ensures SetEntry(pd, a, v) == pd && Lookup(SetEntry(pd, a, v), a) == 0
  {
  }

  // ---------------------------------------------------------------------------------------
  // as_destroy: which frames it releases

  /** The addresses as_destroy passes to free_kpages for entries [0, j) of a table, in order:
      the kernel address of each entry's frame, skipping entries whose frame is 0. */
  function TableFrames(t: seq<int>, j: nat): (fs: seq<int>)
    requires TableOk(t) && j <= NUM_PTE
    ensures forall k :: 0 <= k < |fs| ==> IsU32(fs[k])
  {
    if j == 0 then [] else TableFrames(t, j - 1) + EntryFrames(t[j - 1])
  }

  /** What as_destroy frees for one entry: the kernel address of its frame, unless the
      frame part is zero. */
  function EntryFrames(e: int): (fs: seq<int>)
    requires IsU32(e)
    ensures |fs| <= 1 && forall k :: 0 <= k < |fs| ==> IsU32(fs[k])
  {
    if PageFrame(e) > 0 then [PaddrToKvaddr(PageFrame(e))] else []
  }

  /** The addresses as_destroy frees for directory slots [0, i): those of the first PFN_BITS
      entries of each linked table. */
  function DirFrames(pd: seq<Option<seq<int>>>, i: nat): (fs: seq<int>)
    requires DirOk(pd) && i <= NUM_PTE
    ensures forall k :: 0 <= k < |fs| ==> IsU32(fs[k])
  {
    if i == 0 then []
    else DirFrames(pd, i - 1) + SlotFrames(pd[i - 1])
  }

  /** What as_destroy frees for one directory slot: the first PFN_BITS entries' frames of
      its table, or nothing when the slot is empty. */
  function SlotFrames(slot: Option<seq<int>>): (fs: seq<int>)
    requires slot.Some? ==> TableOk(slot.value)
    ensures forall k :: 0 <= k < |fs| ==> IsU32(fs[k])
  {
    if slot.Some? then TableFrames(slot.value, PFN_BITS) else []
  }

  /** as_destroy reads only directory slots 0-9 and entries 0-9 of their tables: two
      directories that agree there release the same frames, whatever they map elsewhere. */
  lemma {:induction false} DestroyReadsFirstHundred(pd: seq<Option<seq<int>>>, pd': seq<Option<seq<int>>>, i: nat)
    requires DirOk(pd) && DirOk(pd') && i <= PFN_BITS
    requires forall s :: 0 <= s < PFN_BITS ==> (pd[s].Some? <==> pd'[s].Some?)
    requires forall s, e :: 0 <= s < PFN_BITS && 0 <= e < PFN_BITS && pd[s].Some? ==>
      pd[s].value[e] == pd'[s].value[e]
    ensures DirFrames(pd, i) == DirFrames(pd', i)
  {
    if i > 0 {
      DestroyReadsFirstHundred(pd, pd', i - 1);
      if pd[i - 1].Some? {
        TableFramesPrefix(pd[i - 1].value, pd'[i - 1].value, PFN_BITS);
      }
    }
  }

  lemma {:induction false} TableFramesPrefix(t: seq<int>, t': seq<int>, j: nat)
    requires TableOk(t) && TableOk(t') && j <= NUM_PTE
    requires forall e :: 0 <= e < j ==> t[e] == t'[e]
    ensures TableFrames(t, j) == TableFrames(t', j)
  {
    if j > 0 {
      TableFramesPrefix(t, t', j - 1);
    }
  }

  /** A concrete case: a space whose only mapping lies at or above 40 MiB (the user stack,
      say) releases no frame at all. */
  lemma HighMappingsNeverReleased(pd: seq<Option<seq<int>>>)
    requires DirOk(pd) && forall s :: 0 <= s < PFN_BITS ==> pd[s].None?
    ensures DirFrames(pd, PFN_BITS) == []
  {
    DestroyReadsFirstHundred(pd, seq(NUM_PTE, _ => None), PFN_BITS);
    assert DirFrames(seq(NUM_PTE, _ => None), PFN_BITS) == [] by {
      EmptyDirFrames(seq(NUM_PTE, _ => None), PFN_BITS);
    }
  }

  lemma {:induction false} EmptyDirFrames(pd: seq<Option<seq<int>>>, i: nat)
    requires DirOk(pd) && i <= NUM_PTE && forall s :: 0 <= s < i ==> pd[s].None?
    ensures DirFrames(pd, i) == []
  {
    if i > 0 {
      EmptyDirFrames(pd, i - 1);
    }
  }

  /** The directory as_copy has built when its table allocation fails at slot f: the slots
      below f as in the parent, none from f on. */
  function Truncate(pd: seq<Option<seq<int>>>, f: nat): (r: seq<Option<seq<int>>>)
    requires DirOk(pd) && f <= NUM_PTE
    ensures DirOk(r)
  {
    pd[..f] + seq(NUM_PTE - f, _ => None)
  }

  /** Destroying a partial copy releases frames the parent still maps: exactly the first
      frames as_destroy would release from the parent itself. */
  lemma {:induction false} PartialCopyFreesParentFrames(pd: seq<Option<seq<int>>>, f: nat, i: nat)
    requires DirOk(pd) && f <= NUM_PTE && i <= NUM_PTE
    ensures DirFrames(Truncate(pd, f), i) == DirFrames(pd, if i < f then i else f)
  {
    if i > 0 {
      PartialCopyFreesParentFrames(pd, f, i - 1);
      if i > f {
        assert Truncate(pd, f)[i - 1].None?;
      } else {
        assert Truncate(pd, f)[i - 1] == pd[i - 1];
      }
    }
  }

  /** The first slot at or after i whose table allocation fails, when only `budget` more
      tables can be allocated. */
  function FirstUnfunded(pd: seq<Option<seq<int>>>, budget: nat, i: nat): (f: Option<nat>)
    ensures f.Some? ==> i <= f.value < |pd| && pd[f.value].Some?
    decreases |pd| - i
  {
    if i >= |pd| then None
    else if pd[i].Some? then (if budget == 0 then Some(i) else FirstUnfunded(pd, budget - 1, i + 1))
    else FirstUnfunded(pd, budget, i + 1)
  }

  // ---------------------------------------------------------------------------------------
  // as_define_region: the aligned region

  /** The page-aligned [base, top) as_define_region computes for (vaddr, sz), in 32-bit
      unsigned arithmetic. */
  function AlignRegion(vaddr: int, sz: int): (r: (int, int))
    requires IsU32(vaddr) && IsU32(sz)
    ensures IsU32(r.0) && IsU32(r.1)
  {
    var size := Wrap32(sz + vaddr % 4096);
    var base := PageFrame(vaddr);
    // npages * PAGE_SIZE, with npages = size' / PAGE_SIZE, is size' itself: size' is page-aligned
    var size' := PageFrame(Wrap32(size + 4095));
    (base, Wrap32(base + size'))
  }

  /** When nothing wraps, the aligned region is the smallest run of whole pages covering
      [vaddr, vaddr + sz). */
  lemma AlignRegionCovers(vaddr: int, sz: int)
    requires IsU32(vaddr) && IsU32(sz) && vaddr + sz + 4095 < U32
    ensures var (base, top) := AlignRegion(vaddr, sz);
      base % PAGE_SIZE == 0 && top % PAGE_SIZE == 0
      && base <= vaddr < base + PAGE_SIZE && vaddr + sz <= top < vaddr + sz + PAGE_SIZE
  {
    var size := sz + vaddr % 4096;
    var base := PageFrame(vaddr);
    assert base + size == vaddr + sz;
    var size' := PageFrame(size + 4095);
    assert size' % 4096 == 0;
    assert size' / 4096 * 4096 == size';
  }

  // ---------------------------------------------------------------------------------------
  // Segments

  datatype Segment = Code | Data | Stack | Heap

  /** A segment permission with a region's flags ORed in. */
  function Grant(p: bv32, flags: bv32): bv32 {
    p | flags
  }

  /** The code, data and heap bounds and the code and data permissions of a space. */
  datatype Segments = Segments(codeBase: int, codeTop: int, codePerm: bv32,
                               dataBase: int, dataTop: int, dataPerm: bv32,
                               heapBase: int, heapTop: int)

  /** The placement of as_define_region for the aligned region [base, top) with permission
      perm. The first region (code base 0) becomes the code segment; a later one at or above
      the code top becomes the data segment; a later one below the code top pushes the code
      segment, bounds and permission, into data and becomes the code segment. The permission
      is ORed into the segment that receives the region (for pushed code, onto the old code
      permission), and the heap is left empty at the top of whichever segment lies higher. */
  function Place(l: Segments, base: int, top: int, perm: bv32): (r: Segments)
    ensures r.heapBase == r.heapTop
    ensures l.codeBase == 0 ==> r.codeBase == base && r.codeTop == top && r.heapBase == top
    ensures l.codeBase != 0 && base >= l.codeTop ==>
      r.dataBase == base && r.dataTop == top && r.heapBase == top
      && r.codeBase == l.codeBase && r.codeTop == l.codeTop && r.codePerm == l.codePerm
    ensures l.codeBase != 0 && base < l.codeTop ==>
      r.codeBase == base && r.codeTop == top
      && r.dataBase == l.codeBase && r.dataTop == l.codeTop && r.dataPerm == l.codePerm
      && r.heapBase == l.codeTop
  {
    if l.codeBase == 0 then
      l.(codeBase := base, codeTop := top, codePerm := Grant(l.codePerm, perm), heapBase := top, heapTop := top)
    else if base >= l.codeTop then
      l.(dataBase := base, dataTop := top, dataPerm := Grant(l.dataPerm, perm), heapBase := top, heapTop := top)
    else
      l.(dataBase := l.codeBase, dataTop := l.codeTop, dataPerm := l.codePerm,
         codeBase := base, codeTop := top, codePerm := Grant(l.codePerm, perm),
         heapBase := l.codeTop, heapTop := l.codeTop)
  }

  /** The permission as_define_region records: the three flags ORed and shifted above the
      low byte, where the default flags of as_create sit until as_complete_load. */
  function RegionPermission(readable: bv32, writeable: bv32, executable: bv32): (p: bv32)
    ensures p & 0xFF == 0
    ensures readable | writeable | executable < 0x100_0000 ==> p >> 8 == readable | writeable | executable
  {
    (readable | writeable | executable) << 8
  }

  /** `(low | flags << 8) >> 8`: shifting right by 8 recovers the flags ORed in above bit 8
      and discards the low default bits, whatever they were. */
  lemma PermissionShift(low: bv32, flags: bv32)
    requires low < 0x100 && flags < 0x100_0000
    ensures (low | (flags << 8)) >> 8 == flags
  {
  }

  /** Defining the code region of a fresh space and then completing the load leaves exactly
      the region's flags (readable | writeable | executable) as the code permission: the
      shift discards the defaults of as_create. */
  lemma DefineCodeThenCompleteLoad(l: Segments, base: int, top: int, flags: bv32)
    requires l.codeBase == 0 && l.codePerm < 0x100 && flags < 0x100_0000
    ensures Place(l, base, top, flags << 8).codePerm >> 8 == flags
  {
    assert Place(l, base, top, flags << 8).codePerm == Grant(l.codePerm, flags << 8);
    PermissionShift(l.codePerm, flags);
  }

  /** The same for a data region placed above the code segment. */
  lemma DefineDataThenCompleteLoad(l: Segments, base: int, top: int, flags: bv32)
    requires l.codeBase != 0 && base >= l.codeTop && l.dataPerm < 0x100 && flags < 0x100_0000
    ensures Place(l, base, top, flags << 8).dataPerm >> 8 == flags
  {
    assert Place(l, base, top, flags << 8).dataPerm == Grant(l.dataPerm, flags << 8);
    PermissionShift(l.dataPerm, flags);
  }

  class AddrSpace {
    var codeBase: int
    var codeTop: int
    var dataBase: int
    var dataTop: int
    var stackBase: int
    var stackTop: int
    var heapBase: int
    var heapTop: int
    var codePerm: bv32
    var dataPerm: bv32
    var stackPerm: bv32
    var heapPerm: bv32
    /** as_kpages, as_vpages and the two release counters. */
    var kpages: int
    var vpages: int
    var kpagesReleased: int
    var vpagesReleased: int
    /** as_pagedir. */
    var pagedir: seq<Option<seq<int>>>

    ghost predicate Valid()
      reads this
    {
      IsU32(codeBase) && IsU32(codeTop) && IsU32(dataBase) && IsU32(dataTop)
      && IsU32(stackBase) && IsU32(stackTop) && IsU32(heapBase) && IsU32(heapTop)
      && DirOk(pagedir)
    }

    /** The bounds of a segment. */
    function Bounds(s: Segment): (int, int)
      reads this
    {
      match s
      case Code => (codeBase, codeTop)
      case Data => (dataBase, dataTop)
      case Stack => (stackBase, stackTop)
      case Heap => (heapBase, heapTop)
    }

    function Permission(s: Segment): bv32
      reads this
    {
      match s
      case Code => codePerm
      case Data => dataPerm
      case Stack => stackPerm
      case Heap => heapPerm
    }

    predicate InSegment(s: Segment, a: int)
      reads this
    {
      Bounds(s).0 <= a < Bounds(s).1
    }

    /** as_create: a zeroed space with the stack [USERSTACK - STACK_SIZE, USERSTACK), every
        permission READABLE|WRITEABLE, no page tables and zero counters. kmalloc failing
        (a NULL result) is not modelled here; as_copy takes it as a parameter. */
    constructor (stackSize: int)
      requires 0 <= stackSize <= USERSTACK
      ensures Valid()
      ensures codeBase == 0 && codeTop == 0 && dataBase == 0 && dataTop == 0
      ensures heapBase == 0 && heapTop == 0
      ensures stackTop == USERSTACK && stackBase == USERSTACK - stackSize
      ensures codePerm == AS_READABLE | AS_WRITEABLE && dataPerm == AS_READABLE | AS_WRITEABLE
      ensures stackPerm == AS_READABLE | AS_WRITEABLE && heapPerm == AS_READABLE | AS_WRITEABLE
      ensures kpages == 0 && vpages == 0 && kpagesReleased == 0 && vpagesReleased == 0
      ensures pagedir == seq(NUM_PTE, _ => None)
    {
      codeBase, codeTop, dataBase, dataTop := 0, 0, 0, 0;
      heapBase, heapTop := 0, 0;
      stackTop := USERSTACK;
      stackBase := USERSTACK - stackSize;
      stackPerm := AS_READABLE | AS_WRITEABLE;
      heapPerm := AS_READABLE | AS_WRITEABLE;
      codePerm := AS_READABLE | AS_WRITEABLE;
      dataPerm := AS_READABLE | AS_WRITEABLE;
      kpages, vpages := 0, 0;
      kpagesReleased, vpagesReleased := 0, 0;
      pagedir := seq(NUM_PTE, _ => None);
    }

    /** as_is_valid_address: the address lies in one of the four segments. */
    predicate IsValidAddress(a: int)
      reads this
      ensures IsValidAddress(a) <==> exists s: Segment :: InSegment(s, a)
    {
      assert InSegment(Code, a) || InSegment(Data, a) || InSegment(Stack, a) || InSegment(Heap, a)
        ==> exists s: Segment :: InSegment(s, a);
      if codeBase <= a < codeTop then true
      else if dataBase <= a < dataTop then true
      else if stackBase <= a < stackTop then true
      else if heapBase <= a < heapTop then true
      else false
    }

    /** as_get_permission: the permission of the first of code, data and stack containing the
        address; the heap's when the address is at or above both heap bounds; else 0. */
    function GetPermission(a: int): (p: bv32)
      reads this
      ensures InSegment(Code, a) ==> p == codePerm
      ensures !InSegment(Code, a) && InSegment(Data, a) ==> p == dataPerm
      ensures !InSegment(Code, a) && !InSegment(Data, a) && InSegment(Stack, a) ==> p == stackPerm
    {
      if codeBase <= a < codeTop then codePerm
      else if dataBase <= a < dataTop then dataPerm
      else if stackBase <= a < stackTop then stackPerm
      else if a >= heapBase && a >= heapTop then heapPerm
      else 0
    }

    /** The heap test of as_get_permission is inverted: an address inside the heap (and in no
        other segment) gets 0, while one at or above the heap top, which is no valid address
        when it lies in no segment, gets the heap's permission. */
    lemma HeapPermissionInverted(a: int)
      ensures !InSegment(Code, a) && !InSegment(Data, a) && !InSegment(Stack, a) ==>
        (InSegment(Heap, a) ==> GetPermission(a) == 0)
        && (a >= heapTop && a >= heapBase ==> GetPermission(a) == heapPerm && !IsValidAddress(a))
    {
    }

    /** The segment fields as_define_region rewrites. */
    function Layout(): Segments
      reads this
    {
      Segments(codeBase, codeTop, codePerm, dataBase, dataTop, dataPerm, heapBase, heapTop)
    }

    /** as_define_region: aligns the region, then places it as Place describes. It always
        returns 0. */
    method AsDefineRegion(vaddr: int, sz: int, readable: bv32, writeable: bv32, executable: bv32)
      requires Valid() && IsU32(vaddr) && IsU32(sz)
      modifies this`codeBase, this`codeTop, this`codePerm, this`dataBase, this`dataTop, this`dataPerm,
        this`heapBase, this`heapTop
      ensures Valid()
      ensures Layout() == Place(old(Layout()), AlignRegion(vaddr, sz).0, AlignRegion(vaddr, sz).1,
                                RegionPermission(readable, writeable, executable))
    {
      var region := AlignRegion(vaddr, sz);
      var permission := RegionPermission(readable, writeable, executable);
      if codeBase == 0 {
        codeBase := region.0;
        codeTop := region.1;
        codePerm := Grant(codePerm, permission);
        heapBase, heapTop := codeTop, codeTop;
      } else if region.0 >= codeTop {
        dataBase := region.0;
        dataTop := region.1;
        dataPerm := Grant(dataPerm, permission);
        heapBase, heapTop := dataTop, dataTop;
      } else {
        dataBase := codeBase;
        dataTop := codeTop;
        dataPerm := codePerm;
        codeBase := region.0;
        codeTop := region.1;
        codePerm := Grant(codePerm, permission);
        heapBase, heapTop := dataTop, dataTop;
      }
    }

    /** as_complete_load: shifts the code and data permissions right by 8. */
    method AsCompleteLoad()
      modifies this`codePerm, this`dataPerm
      ensures codePerm == old(codePerm) >> 8 && dataPerm == old(dataPerm) >> 8
    {
      codePerm := codePerm >> 8;
      dataPerm := dataPerm >> 8;
    }

    /** as_get_pt_entry: an empty directory slot is linked to a zeroed table first, failing
        with ENOMEM (nothing changed) when that allocation fails; the entry is then read. */
    method AsGetPtEntry(a: int, allocOk: bool) returns (err: Option<Errno>, pte: int)
      requires Valid() && IsU32(a)
      modifies this`pagedir
      ensures Valid()
      ensures old(pagedir)[PdIndex(a)].None? && !allocOk ==>
        err == Some(ENoMem) && pagedir == old(pagedir) && pte == 0
      ensures old(pagedir)[PdIndex(a)].Some? || allocOk ==>
        err == None && pagedir == Link(old(pagedir), a) && pte == Lookup(old(pagedir), a)
    {
      var pd := PdIndex(a);
      var pt := PtIndex(a);
      if pagedir[pd].None? {
        if !allocOk {
          return Some(ENoMem), 0;
        }
        pagedir := pagedir[pd := Some(EmptyTable())];
      }
      return None, pagedir[pd].value[pt];
    }

    /** as_set_pt_entry: writes the entry into the linked table, or into a fresh table that is
        never linked when the slot is empty. */
    method AsSetPtEntry(a: int, v: int)
      requires Valid() && IsU32(a) && IsU32(v)
      modifies this`pagedir
      ensures Valid() && pagedir == SetEntry(old(pagedir), a, v)
    {
      var pd := PdIndex(a);
      var pt := PtIndex(a);
      var t := if pagedir[pd].Some? then pagedir[pd].value else EmptyTable();
      t := t[pt := v];
      if pagedir[pd].Some? {
        pagedir := pagedir[pd := Some(t)];
      }
    }

    /** as_destroy: for directory slots 0-9, clears the slot and, when it held a table,
        releases with free_kpages the frame of each of the table's entries 0-9 that is not 0.
        The tables and the structure itself go back to kfree, which is not modelled. */
    method AsDestroy(pm: PhysMem)
      requires Valid() && pm.Valid()
      modifies this`pagedir, pm`nfreepages, pm.coremap
      ensures Valid() && pm.Valid() && pm.nextFree == old(pm.nextFree)
      ensures pagedir == seq(PFN_BITS, _ => None) + old(pagedir)[PFN_BITS..]
      ensures (pm.coremap[..], pm.nfreepages)
              == pm.AfterFrees(old(pm.coremap[..]), old(pm.nfreepages), DirFrames(old(pagedir), PFN_BITS))
    {
      ghost var pd0 := pagedir;
      ghost var cm0 := pm.coremap[..];
      ghost var n0 := pm.nfreepages;
      var i := 0;
      while i < PFN_BITS
        invariant 0 <= i <= PFN_BITS && Valid() && pm.Valid() && pm.nextFree == old(pm.nextFree)
        invariant pagedir == seq(i, _ => None) + pd0[i..]
        invariant (pm.coremap[..], pm.nfreepages) == pm.AfterFrees(cm0, n0, DirFrames(pd0, i))
      {
        DestroySlot(pm, i, pd0, cm0, n0);
        i := i + 1;
      }
    }

    /** One iteration of as_destroy's outer loop: slot i is cleared and its table released. */
    method DestroySlot(pm: PhysMem, i: nat, ghost pd0: seq<Option<seq<int>>>, ghost cm0: seq<bv32>, ghost n0: int)
      requires Valid() && pm.Valid() && i < PFN_BITS && DirOk(pd0) && |cm0| == pm.lastPage && IsU32(n0)
      requires pagedir == seq(i, _ => None) + pd0[i..]
      requires (pm.coremap[..], pm.nfreepages) == pm.AfterFrees(cm0, n0, DirFrames(pd0, i))
      modifies this`pagedir, pm`nfreepages, pm.coremap
      ensures Valid() && pm.Valid() && pm.nextFree == old(pm.nextFree)
      ensures pagedir == seq(i + 1, _ => None) + pd0[i + 1..]
      ensures (pm.coremap[..], pm.nfreepages) == pm.AfterFrees(cm0, n0, DirFrames(pd0, i + 1))
    {
      var pt := pagedir[i];
      assert pt == pd0[i];
      pagedir := pagedir[i := None];
      assert pagedir == seq(i + 1, _ => None) + pd0[i + 1..];
      ghost var done := DirFrames(pd0, i);
      assert DirFrames(pd0, i + 1) == done + SlotFrames(pt);
      ReleaseSlot(pm, pt);
      pm.AfterFreesAppend(cm0, n0, done, SlotFrames(pt));
    }

    /** One iteration of as_destroy's outer loop: the slot's table, when it has one, is
        released entry by entry. */
    static method ReleaseSlot(pm: PhysMem, slot: Option<seq<int>>)
      requires pm.Valid() && (slot.Some? ==> TableOk(slot.value))
      modifies pm`nfreepages, pm.coremap
      ensures pm.Valid() && pm.nextFree == old(pm.nextFree)
      ensures (pm.coremap[..], pm.nfreepages)
              == pm.AfterFrees(old(pm.coremap[..]), old(pm.nfreepages), SlotFrames(slot))
    {
      if slot.Some? {
        ReleaseTable(pm, slot.value);
      }
    }

    /** The inner loop of as_destroy over entries 0-9 of one table. */
    static method ReleaseTable(pm: PhysMem, t: seq<int>)
      requires pm.Valid() && TableOk(t)
      modifies pm`nfreepages, pm.coremap
      ensures pm.Valid() && pm.nextFree == old(pm.nextFree)
      ensures (pm.coremap[..], pm.nfreepages)
              == pm.AfterFrees(old(pm.coremap[..]), old(pm.nfreepages), TableFrames(t, PFN_BITS))
    {
      ghost var cm0 := pm.coremap[..];
      ghost var n0 := pm.nfreepages;
      var j := 0;
      while j < PFN_BITS
        invariant 0 <= j <= PFN_BITS && pm.Valid() && pm.nextFree == old(pm.nextFree)
        invariant (pm.coremap[..], pm.nfreepages) == pm.AfterFrees(cm0, n0, TableFrames(t, j))
      {
        ReleaseEntry(pm, t[j], cm0, n0, TableFrames(t, j), TableFrames(t, j + 1));
        j := j + 1;
      }
    }

    /** One iteration of as_destroy's inner loop: free_kpages on the entry's frame when the
        frame part is nonzero. */
    static method ReleaseEntry(pm: PhysMem, e: int, ghost cm0: seq<bv32>, ghost n0: int, ghost ps: seq<int>,
                               ghost ps2: seq<int>)
      requires pm.Valid() && IsU32(e) && |cm0| == pm.lastPage && IsU32(n0)
      requires forall k :: 0 <= k < |ps| ==> IsU32(ps[k])
      requires (pm.coremap[..], pm.nfreepages) == pm.AfterFrees(cm0, n0, ps)
      requires ps2 == ps + EntryFrames(e)
      modifies pm`nfreepages, pm.coremap
      ensures pm.Valid() && pm.nextFree == old(pm.nextFree)
      ensures forall k :: 0 <= k < |ps2| ==> IsU32(ps2[k])
      ensures (pm.coremap[..], pm.nfreepages) == pm.AfterFrees(cm0, n0, ps2)
    {
      var ppage := PageFrame(e);
      if ppage > 0 {
        pm.AfterFreesSnoc(cm0, n0, ps, PaddrToKvaddr(ppage));
        pm.FreeKPages(PaddrToKvaddr(ppage));
      } else {
        assert ps2 == ps;
      }
    }

    /** The inner loop of as_copy: a zeroed table into which every non-zero entry of t is
        copied, which is t itself. The frames are shared, not copied. */
    static method CopyTable(t: seq<int>) returns (nt: seq<int>)
      requires TableOk(t)
      ensures nt == t
    {
      nt := EmptyTable();
      var j := 0;
      while j < NUM_PTE
        invariant 0 <= j <= NUM_PTE && |nt| == NUM_PTE
        invariant forall m :: 0 <= m < j ==> nt[m] == t[m]
        invariant forall m :: j <= m < NUM_PTE ==> nt[m] == 0
      {
        if t[j] != 0 {
          nt := nt[j := t[j]];
        }
        j := j + 1;
      }
    }

    /** as_copy's new space: as_create's, with every segment bound copied from this one. */
    method CloneBounds(stackSize: int) returns (nas: AddrSpace)
      requires Valid() && 0 <= stackSize <= USERSTACK
      ensures fresh(nas) && nas.Valid() && nas.pagedir == seq(NUM_PTE, _ => None)
      ensures nas.codeBase == codeBase && nas.codeTop == codeTop
      ensures nas.dataBase == dataBase && nas.dataTop == dataTop
      ensures nas.stackBase == stackBase && nas.stackTop == stackTop
      ensures nas.heapBase == heapBase && nas.heapTop == heapTop
      ensures nas.codePerm == AS_READABLE | AS_WRITEABLE && nas.dataPerm == AS_READABLE | AS_WRITEABLE
      ensures nas.stackPerm == AS_READABLE | AS_WRITEABLE && nas.heapPerm == AS_READABLE | AS_WRITEABLE
      ensures nas.kpages == 0 && nas.vpages == 0 && nas.kpagesReleased == 0 && nas.vpagesReleased == 0
    {
      nas := new AddrSpace(stackSize);
      nas.codeBase, nas.codeTop := codeBase, codeTop;
      nas.dataBase, nas.dataTop := dataBase, dataTop;
      nas.stackBase, nas.stackTop := stackBase, stackTop;
      nas.heapBase, nas.heapTop := heapBase, heapTop;
    }

    /** as_copy: a new space (ENOMEM when it cannot be allocated) with the parent's eight
        segment bounds (the permissions stay as as_create sets them) and, for every linked
        directory slot, a new table with the same entries. When a table cannot be allocated
        (only `tableBudget` can be) the partial copy is destroyed, which releases frames the
        parent still maps, and ENOMEM is returned. */
    method AsCopy(pm: PhysMem, stackSize: int, asAllocOk: bool, tableBudget: nat)
      returns (err: Option<Errno>, newas: AddrSpace?)
      requires Valid() && pm.Valid() && 0 <= stackSize <= USERSTACK
      modifies pm`nfreepages, pm.coremap
      ensures pm.Valid() && pm.nextFree == old(pm.nextFree)
      ensures !asAllocOk ==>
        err == Some(ENoMem) && newas == null
        && pm.coremap[..] == old(pm.coremap[..]) && pm.nfreepages == old(pm.nfreepages)
      ensures asAllocOk && FirstUnfunded(pagedir, tableBudget, 0).None? ==>
        err == None && newas != null && fresh(newas) && newas.Valid()
        && newas.codeBase == codeBase && newas.codeTop == codeTop
        && newas.dataBase == dataBase && newas.dataTop == dataTop
        && newas.stackBase == stackBase && newas.stackTop == stackTop
        && newas.heapBase == heapBase && newas.heapTop == heapTop
        && newas.codePerm == AS_READABLE | AS_WRITEABLE && newas.dataPerm == AS_READABLE | AS_WRITEABLE
        && newas.stackPerm == AS_READABLE | AS_WRITEABLE && newas.heapPerm == AS_READABLE | AS_WRITEABLE
        && newas.kpages == 0 && newas.vpages == 0 && newas.kpagesReleased == 0 && newas.vpagesReleased == 0
        && newas.pagedir == pagedir
        && pm.coremap[..] == old(pm.coremap[..]) && pm.nfreepages == old(pm.nfreepages)
      ensures asAllocOk && FirstUnfunded(pagedir, tableBudget, 0).Some? ==>
        err == Some(ENoMem) && newas == null
        && (pm.coremap[..], pm.nfreepages)
           == pm.AfterFrees(old(pm.coremap[..]), old(pm.nfreepages),
                            DirFrames(Truncate(pagedir, FirstUnfunded(pagedir, tableBudget, 0).value), PFN_BITS))
    {
      if !asAllocOk {
        return Some(ENoMem), null;
      }
      var nas := CloneBounds(stackSize);
      var failed, npd := CopyDirectory(pagedir, tableBudget);
      nas.pagedir := npd;
      if failed {
        nas.AsDestroy(pm);
        return Some(ENoMem), null;
      }
      return None, nas;
    }

    /** The directory loop of as_copy: a copy of each linked table, slot by slot, stopping at
        the first slot whose table cannot be allocated (only `budget` can be). */
    static method CopyDirectory(pd: seq<Option<seq<int>>>, budget: nat)
      returns (failed: bool, npd: seq<Option<seq<int>>>)
      requires DirOk(pd)
      ensures DirOk(npd)
      ensures failed <==> FirstUnfunded(pd, budget, 0).Some?
      ensures npd == if failed then Truncate(pd, FirstUnfunded(pd, budget, 0).value) else pd
    {
      var left := budget;
      npd := seq(NUM_PTE, _ => None);
      assert npd == Truncate(pd, 0);
      var i := 0;
      while i < NUM_PTE
        invariant 0 <= i <= NUM_PTE && npd == Truncate(pd, i)
        invariant FirstUnfunded(pd, budget, 0) == FirstUnfunded(pd, left, i)
      {
        if pd[i].Some? {
          if left == 0 {
            return true, npd;
          }
          left := left - 1;
          var nt := CopyTable(pd[i].value);
          assert Truncate(pd, i)[i := Some(nt)] == Truncate(pd, i + 1);
          npd := npd[i := Some(nt)];
        } else {
          assert Truncate(pd, i) == Truncate(pd, i + 1);
        }
        i := i + 1;
      }
      assert Truncate(pd, NUM_PTE) == pd;
      return false, npd;
    }
  }
}
