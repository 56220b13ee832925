/** The swap map and clock eviction. _swapmap is an array of (in_use, addr, pid) slots and
    swapclock is the eviction hand. swapout evicts one frame into the lowest unused slot;
    swapin claims a FREE frame for a page found in the map. The swap file's contents and the
    I/O calls are not modelled. */
module Swap {
  import opened Common
  import opened VmDefs
  import opened Coremap
  import Tlb

  datatype SwapEntry = SwapEntry(inUse: bool, addr: int, pid: bv32)

  /** get_free_swap_idx's test. */
  predicate SlotFree(e: SwapEntry) {
    !e.inUse
  }

  /** find_swap_idx's and remove_swap_entry's test. */
  function SlotFor(addr: int, pid: bv32): SwapEntry -> bool {
    (e: SwapEntry) => e.pid == pid && e.addr == addr && e.inUse
  }

  /** The outcome codes of swapin (0 on success). */
  datatype SwapinResult = SwapinOk | SwapinNoMem | SwapinNotFound

  // ---------------------------------------------------------------------------------------
  // swapout: specification of the clock scan

  /** swapout evicts any frame that is neither FIXED nor FREE. */
  predicate IsVictim(w: bv32)
    ensures IsVictim(w) <==> IsPpageInRam(w) || IsPpageInSwap(w)
  {
    !IsPpageFixed(w) && !IsPpageFree(w)
  }

  /** Where the scan starts: swapclock + 1 in unsigned arithmetic, reset to 0 past the last frame. */
  function ScanStart(clock: int, n: nat): (i: nat)
    requires IsU32(clock) && 0 < n
    ensures i < n
  {
    var i := Wrap32(clock + 1);
    if i >= n then 0 else i
  }

  /** How many frames the scan may visit: every frame but swapclock when swapclock names a
      frame; when it does not, the loop never comes back to it and stops only at a victim. */
  function ScanLimit(clock: int, n: nat): nat {
    if 0 <= clock < n then n - 1 else n
  }

  /** The first victim among offsets d .. limit - 1 from origin, visited circularly. */
  function VictimScan(cm: seq<bv32>, origin: nat, d: nat, limit: nat): Option<nat>
    requires origin < |cm| && limit <= |cm|
    decreases limit - d
  {
    if d >= limit then None
    else if IsVictim(cm[Circ(origin, d, |cm|)]) then Some(Circ(origin, d, |cm|))
    else VictimScan(cm, origin, d + 1, limit)
  }

  /** The frame swapout evicts, if any. */
  function Victim(cm: seq<bv32>, clock: int): (v: Option<nat>)
    requires IsU32(clock) && 0 < |cm|
    ensures v.Some? ==> v.value < |cm| && IsVictim(cm[v.value])
  {
    var v := VictimScan(cm, ScanStart(clock, |cm|), 0, ScanLimit(clock, |cm|));
    if v.Some? then VictimScanFound(cm, ScanStart(clock, |cm|), 0, ScanLimit(clock, |cm|)); v else v
  }

  /** A victim VictimScan reports is the first one in circular order from step d. */
  lemma {:induction false} VictimScanFound(cm: seq<bv32>, origin: nat, d: nat, limit: nat)
    requires origin < |cm| && d <= limit <= |cm|
    requires VictimScan(cm, origin, d, limit).Some?
    ensures var v := VictimScan(cm, origin, d, limit).value;
      v < |cm| && IsVictim(cm[v])
      && exists t :: d <= t < limit && v == Circ(origin, t, |cm|)
                     && forall u :: d <= u < t ==> !IsVictim(cm[Circ(origin, u, |cm|)])
    decreases limit - d
  {
    var v := VictimScan(cm, origin, d, limit).value;
    if IsVictim(cm[Circ(origin, d, |cm|)]) {
      assert v == Circ(origin, d, |cm|);
    } else {
      VictimScanFound(cm, origin, d + 1, limit);
      var t :| d + 1 <= t < limit && v == Circ(origin, t, |cm|)
               && forall u :: d + 1 <= u < t ==> !IsVictim(cm[Circ(origin, u, |cm|)]);
      assert forall u :: d <= u < t ==> !IsVictim(cm[Circ(origin, u, |cm|)]);
    }
  }

  /** VictimScan reports nothing only when no frame it may visit is a victim. */
  lemma {:induction false} VictimScanNone(cm: seq<bv32>, origin: nat, d: nat, limit: nat)
    requires origin < |cm| && d <= limit <= |cm|
    requires VictimScan(cm, origin, d, limit).None?
    ensures forall u :: d <= u < limit ==> !IsVictim(cm[Circ(origin, u, |cm|)])
    decreases limit - d
  {
    if d < limit {
      VictimScanNone(cm, origin, d + 1, limit);
    }
  }

  /** VictimScan finds the first victim in circular order and finds none only when the
      frames it may visit hold none. */
  lemma VictimScanSpec(cm: seq<bv32>, origin: nat, d: nat, limit: nat)
    requires origin < |cm| && d <= limit <= |cm|
    ensures VictimScan(cm, origin, d, limit).Some? ==>
      var v := VictimScan(cm, origin, d, limit).value;
      v < |cm| && IsVictim(cm[v])
      && exists t :: d <= t < limit && v == Circ(origin, t, |cm|)
                     && forall u :: d <= u < t ==> !IsVictim(cm[Circ(origin, u, |cm|)])
    ensures VictimScan(cm, origin, d, limit).None? ==>
      forall u :: d <= u < limit ==> !IsVictim(cm[Circ(origin, u, |cm|)])
  {
    if VictimScan(cm, origin, d, limit).Some? {
      VictimScanFound(cm, origin, d, limit);
    } else {
      VictimScanNone(cm, origin, d, limit);
    }
  }

  /** When swapclock names a frame, the scan visits every other frame and comes back to
      swapclock exactly after ScanLimit steps: frame swapclock itself is never examined. */
  lemma ClockPosition(clock: int, n: nat, d: nat)
    requires IsU32(clock) && clock < n <= U32 && d <= n - 1
    ensures Circ(ScanStart(clock, n), d, n) == clock <==> d == n - 1
  {
    assert ScanStart(clock, n) == if clock + 1 >= n then 0 else clock + 1;
  }

  /** The frame swapout evicts is never the one under swapclock. */
  lemma VictimNotClock(cm: seq<bv32>, clock: int)
    requires IsU32(clock) && clock < |cm| <= U32
    ensures Victim(cm, clock).Some? ==> Victim(cm, clock).value != clock
  {
    var n := |cm|;
    VictimScanSpec(cm, ScanStart(clock, n), 0, ScanLimit(clock, n));
    if Victim(cm, clock).Some? {
      var t :| 0 <= t < ScanLimit(clock, n) && Victim(cm, clock).value == Circ(ScanStart(clock, n), t, n)
               && forall u :: 0 <= u < t ==> !IsVictim(cm[Circ(ScanStart(clock, n), u, n)]);
      ClockPosition(clock, n, t);
    }
  }

  /** Once swapclock has run past the last frame the scan circles the whole directory, so it
      finds a victim exactly when one exists. */
  lemma VictimWhenClockPast(cm: seq<bv32>, clock: int)
    requires IsU32(clock) && 0 < |cm| <= clock
    ensures Victim(cm, clock).Some? <==> exists k :: 0 <= k < |cm| && IsVictim(cm[k])
  {
    var n := |cm|;
    var o := ScanStart(clock, n);
    VictimScanSpec(cm, o, 0, n);
    if Victim(cm, clock).None? {
      forall k | 0 <= k < n ensures !IsVictim(cm[k]) {
        var t := if k >= o then k - o else k + n - o;
        assert Circ(o, t, n) == k;
      }
    }
  }

  /** Evicting a victim keeps a correct free count correct and FREE words zero. */
  lemma EvictKeepsCount(cm: seq<bv32>, n: int, v: nat)
    requires v < |cm| && IsVictim(cm[v]) && IsU32(n) && |cm| < U32
    ensures n == CountFree(cm) ==> IsU32(n + 1) && n + 1 == CountFree(cm[v := PP_FREE])
    ensures FreeIsZero(cm) ==> FreeIsZero(cm[v := PP_FREE])
  {
    CountFreeUpdate(cm, v, PP_FREE);
    var _ := CountFree(cm[v := PP_FREE]);
  }

  // ---------------------------------------------------------------------------------------
  // swapin: the descriptor it writes

  /** The word swapin stores: ALLOC_END|CLEAN|USE ORed with the pid itself, not pid << 6. */
  function SwapinWord(pid: bv32): (w: bv32)
    ensures !IsPpageFree(w) && IsPpageUse(w) && IsPpageAllocEnd(w)
  {
    PP_ALLOC_END | PP_CLEAN | PP_USE | pid
  }

  /** Because the pid is not shifted, its bits land in the state and permission fields: the
      frame reads as FIXED whenever bit 2 of the pid is set, and the owner field holds bits
      6-11 of the pid rather than the pid. The frame is never FREE. */
  lemma SwapinWordFields(pid: bv32)
    ensures !IsPpageFree(SwapinWord(pid)) && IsPpageUse(SwapinWord(pid))
    ensures IsPpageFixed(SwapinWord(pid)) <==> pid & 4 != 0
    ensures IsPpageInSwap(SwapinWord(pid)) <==> pid & 4 == 0
    ensures Decode(SwapinWord(pid)).owner == (pid >> 6) & 0x3F
    ensures Decode(SwapinWord(pid)).perm == pid & 3
  {
  }

  /** A concrete case: process 4's swapped-in frame is marked FIXED, so swapout never
      evicts it again. */
  lemma SwapinPidFourIsFixed()
    ensures IsPpageFixed(SwapinWord(4)) && !IsVictim(SwapinWord(4))
  {
  }

  /** The key swapin looks up: the frame index of the page holding `addr`, computed from its
      kernel-segment address with unsigned arithmetic. */
  function SwapKey(pm: PhysMem, addr: int): (key: int)
    requires IsU32(addr) && IsU32(pm.userBase)
    ensures 0 <= key < U32 / PAGE_SIZE
  {
    pm.FrameIndexOf(KvaddrToPaddr(addr))
  }

  /** The entry swapout writes for frame v: the page's physical address, and the pid read
      back from the descriptor after it was set to PP_FREE, which is always 0. */
  function SwapoutEntry(pm: PhysMem, v: nat): (e: SwapEntry)
    ensures e.inUse && e.addr == pm.userBase + v * PAGE_SIZE && e.pid == (PP_FREE & PP_PID_MASK) >> 6
    ensures e.pid == 0
  {
    SwapEntry(true, pm.FrameAddr(v), (PP_FREE & PP_PID_MASK) >> 6)
  }

  /** The swap map swapout leaves behind for the evicted frame, if any: the lowest unused slot
      now records the victim, and every other slot is as it was; without a victim nothing
      changes. */
  function SwapoutSlots(pm: PhysMem, slots: seq<SwapEntry>, victim: Option<nat>): (r: seq<SwapEntry>)
    requires victim.Some? ==> FirstWhere(slots, SlotFree, 0).Some?
    ensures |r| == |slots|
    ensures victim.None? ==> r == slots
    ensures victim.Some? ==>
      var s := FirstWhere(slots, SlotFree, 0).value;
      s < |r| && SlotFree(slots[s]) && (forall i :: 0 <= i < s ==> !SlotFree(slots[i]))
      && r[s] == SwapoutEntry(pm, victim.value) && r[s].inUse
      && forall i :: 0 <= i < |slots| && i != s ==> r[i] == slots[i]
  {
    FirstWhereSpec(slots, SlotFree, 0);
    match victim
    case None => slots
    case Some(v) => slots[FirstWhere(slots, SlotFree, 0).value := SwapoutEntry(pm, v)]
  }

  /** The swap map and hand after swapout ran on directory cm0 with map slots0 and hand
      clock0: the hand one step on, and the map SwapoutSlots leaves for Victim's frame. */
  predicate SwappedOut(pm: PhysMem, cm0: seq<bv32>, slots0: seq<SwapEntry>, clock0: int,
                       slots: seq<SwapEntry>, clock: int)
  {
    IsU32(clock0) && 0 < |cm0| && clock == Wrap32(clock0 + 1)
    && var v := Victim(cm0, clock0);
       (v.Some? ==> FirstWhere(slots0, SlotFree, 0).Some?)
       && slots == SwapoutSlots(pm, slots0, v)
  }

  /** swapin never finds an entry swapout wrote: for any lookup with a non-zero pid, because
      the recorded pid is 0; and for every pid once frames start at or above 1 MiB, because
      swapout records a physical address while swapin looks up a frame index (below 2^20). */
  lemma SwapoutEntryNeverFound(pm: PhysMem, v: nat, addr: int, pid: bv32)
    requires pm.Valid() && v < pm.lastPage && IsU32(addr)
    ensures pid != 0 ==> !SlotFor(SwapKey(pm, addr), pid)(SwapoutEntry(pm, v))
    ensures pm.userBase >= 0x10_0000 ==> !SlotFor(SwapKey(pm, addr), pid)(SwapoutEntry(pm, v))
  {
  }

  /** Removing the entry find_swap_idx returns exposes the next matching entry, if any. */
  lemma RemoveThenFind(s: seq<SwapEntry>, addr: int, pid: bv32)
    requires FirstWhere(s, SlotFor(addr, pid), 0).Some?
    ensures var k := FirstWhere(s, SlotFor(addr, pid), 0).value;
      k < |s| && FirstWhere(s[k := s[k].(inUse := false)], SlotFor(addr, pid), 0)
                 == FirstWhere(s, SlotFor(addr, pid), k + 1)
  {
    var p := SlotFor(addr, pid);
    FirstWhereSpec(s, p, 0);
    var k := FirstWhere(s, p, 0).value;
    var t := s[k := s[k].(inUse := false)];
    FirstWhereSkip(t, p, 0, k);
    FirstWhereSuffix(s, t, p, k + 1);
  }

  // ---------------------------------------------------------------------------------------

  class SwapMap {
    /** _swapmap: NUM_SW_PAGES slots, a fixed-length sequence rewritten slot by slot. */
    var slots: seq<SwapEntry>
    /** swapclock: unsigned eviction hand. */
    var swapclock: int

    ghost predicate Valid()
      reads this
    {
      |slots| == NUM_SW_PAGES && IsU32(swapclock)
    }

    /** vm_bootstrap's swap state: every slot unused, the hand at 0. The other slot fields are
        left as kmalloc returns them; the model sets them to zero. */
    constructor ()
      ensures Valid() && swapclock == 0
      ensures forall i :: 0 <= i < |slots| ==> !slots[i].inUse
    {
      slots := seq(NUM_SW_PAGES, _ => SwapEntry(false, 0, 0));
      swapclock := 0;
    }

    /** get_free_swap_idx: the lowest unused slot, or none (NO_SWAP_IDX). */
    method GetFreeSwapIdx() returns (idx: Option<nat>)
      requires Valid()
      ensures idx == FirstWhere(slots, SlotFree, 0)
      ensures idx.Some? ==> idx.value < |slots| && !slots[idx.value].inUse
      ensures idx.None? ==> forall i :: 0 <= i < |slots| ==> slots[i].inUse
    {
      FirstWhereSpec(slots, SlotFree, 0);
      var i := 0;
      while i < |slots|
        invariant 0 <= i <= |slots|
        invariant FirstWhere(slots, SlotFree, 0) == FirstWhere(slots, SlotFree, i)
      {
        if !slots[i].inUse {
          return Some(i);
        }
        i := i + 1;
      }
      return None;
    }

    /** find_swap_idx: the lowest in-use slot recording both addr and pid, or none. */
    method FindSwapIdx(addr: int, pid: bv32) returns (idx: Option<nat>)
      requires Valid()
      ensures idx == FirstWhere(slots, SlotFor(addr, pid), 0)
      ensures idx.Some? ==> idx.value < |slots| && SlotFor(addr, pid)(slots[idx.value])
      ensures idx.None? ==> forall i :: 0 <= i < |slots| ==> !SlotFor(addr, pid)(slots[i])
    {
      FirstWhereSpec(slots, SlotFor(addr, pid), 0);
      var i := 0;
      while i < |slots|
        invariant 0 <= i <= |slots|
        invariant FirstWhere(slots, SlotFor(addr, pid), 0) == FirstWhere(slots, SlotFor(addr, pid), i)
      {
        if slots[i].pid == pid && slots[i].addr == addr && slots[i].inUse {
          return Some(i);
        }
        i := i + 1;
      }
      return None;
    }

    /** remove_swap_entry: marks the slot find_swap_idx would return as unused; nothing
        changes when there is none. */
    method RemoveSwapEntry(addr: int, pid: bv32)
      requires Valid()
      modifies this`slots
      ensures Valid()
      ensures match FirstWhere(old(slots), SlotFor(addr, pid), 0)
        case None => slots == old(slots)
        case Some(k) => k < |slots| && slots == old(slots)[k := old(slots)[k].(inUse := false)]
    {
      FirstWhereSpec(slots, SlotFor(addr, pid), 0);
      var i := 0;
      while i < |slots|
        invariant 0 <= i <= |slots| && slots == old(slots)
        invariant FirstWhere(slots, SlotFor(addr, pid), 0) == FirstWhere(slots, SlotFor(addr, pid), i)
      {
        if slots[i].pid == pid && slots[i].addr == addr && slots[i].inUse {
          slots := slots[i := slots[i].(inUse := false)];
          return;
        }
        i := i + 1;
      }
    }

    /** The scanning loop of swapout: from the start position, circularly, skipping FIXED
        and FREE frames, until it comes back to swapclock. Stops at the first victim. */
    method FindVictim(pm: PhysMem) returns (found: bool, v: nat)
      requires Valid() && pm.Valid()
      requires swapclock < pm.lastPage || exists k :: 0 <= k < pm.lastPage && IsVictim(pm.coremap[k])
      ensures found <==> Victim(pm.coremap[..], swapclock).Some?
      ensures found ==> Victim(pm.coremap[..], swapclock) == Some(v) && v < pm.lastPage
                        && IsVictim(pm.coremap[v])
    {
      ghost var cm := pm.coremap[..];
      ghost var n := pm.lastPage;
      ghost var limit := ScanLimit(swapclock, n);
      var i: nat := Wrap32(swapclock + 1);
      if i >= pm.lastPage {
        i := 0;
      }
      ghost var o: nat := i;
      ghost var d: nat := 0;
      if swapclock >= n {
        VictimWhenClockPast(cm, swapclock);
      }
      VictimScanSpec(cm, o, 0, limit);
      while i != swapclock
        invariant d <= limit && o == ScanStart(swapclock, n) && i == Circ(o, d, n)
        invariant VictimScan(cm, o, 0, limit) == VictimScan(cm, o, d, limit)
        invariant swapclock >= n ==> VictimScan(cm, o, d, limit).Some?
        decreases limit - d
      {
        if swapclock < n {
          ClockPosition(swapclock, n, d);
        }
        if IsPpageFixed(pm.coremap[i]) {
        } else if IsPpageFree(pm.coremap[i]) {
        } else {
          return true, i;
        }
        i := i + 1;
        if i >= pm.lastPage {
          i := 0;
        }
        d := d + 1;
      }
      if d < limit {
        ClockPosition(swapclock, n, d);
      }
      return false, 0;
    }

    /** swapout: evicts the first frame after swapclock (circularly) that is neither FIXED
        nor FREE: its descriptor becomes PP_FREE, nfreepages is incremented, the lowest unused
        swap slot records the frame's physical address with pid 0 (the owner is read back
        after the descriptor was cleared), and the TLB is invalidated. swapclock advances by
        one and is never wrapped. The loop ends only by coming back to swapclock or at a
        victim, and an eviction indexes the slot get_free_swap_idx returns, so a caller must
        guarantee both. */
    method Swapout(pm: PhysMem, tlb: Tlb.Tlb)
      requires Valid() && pm.Valid() && tlb.Valid()
      requires swapclock < pm.lastPage || exists k :: 0 <= k < pm.lastPage && IsVictim(pm.coremap[k])
      requires Victim(pm.coremap[..], swapclock).Some? ==> FirstWhere(slots, SlotFree, 0).Some?
      modifies this, pm`nfreepages, pm.coremap, tlb`entries
      ensures Valid() && pm.Valid() && tlb.Valid() && swapclock == Wrap32(old(swapclock) + 1)
      ensures match Victim(old(pm.coremap[..]), old(swapclock))
        case None =>
          pm.coremap[..] == old(pm.coremap[..]) && pm.nfreepages == old(pm.nfreepages)
          && slots == old(slots) && tlb.entries == old(tlb.entries)
        case Some(v) =>
          v < pm.lastPage && IsVictim(old(pm.coremap[v]))
          && pm.coremap[..] == old(pm.coremap[..])[v := PP_FREE]
          && pm.nfreepages == Wrap32(old(pm.nfreepages) + 1)
          && (var s := FirstWhere(old(slots), SlotFree, 0).value;
              s < |slots| && slots == old(slots)[s := SwapoutEntry(pm, v)])
          && forall i :: 0 <= i < Tlb.NUM_TLB ==> tlb.entries[i] == Tlb.Invalid
      ensures old(swapclock) < pm.lastPage ==> Victim(old(pm.coremap[..]), old(swapclock)) != Some(old(swapclock))
      ensures old(pm.Counted()) ==> pm.Counted()
      ensures old(FreeIsZero(pm.coremap[..])) ==> FreeIsZero(pm.coremap[..])
    {
      ghost var cm0 := pm.coremap[..];
      if swapclock < pm.lastPage {
        VictimNotClock(cm0, swapclock);
      }
      var found, v := FindVictim(pm);
      if found {
        var sidx := GetFreeSwapIdx();
        var s := sidx.value;
        pm.coremap[v] := PP_FREE;
        pm.nfreepages := Wrap32(pm.nfreepages + 1);
        slots := slots[s := SwapEntry(true, pm.userBase + v * PAGE_SIZE, (pm.coremap[v] & PP_PID_MASK) >> 6)];
        tlb.Invalidate();
        EvictKeepsCount(cm0, old(pm.nfreepages), v);
      }
      swapclock := Wrap32(swapclock + 1);
    }
    /** swapin: with no free frame, SWAPIN_NO_MEM and nothing changes. Otherwise it looks up
        the slot for (SwapKey(addr), pid) and without one returns SWAPIN_NOT_FOUND, changing
        nothing. With one it claims the first FREE frame from next_free (circularly) with the
        unshifted-pid word and decrements nfreepages; next_free moves past the frame claimed,
        or past the old cursor when none was free. The slot stays in use. */
    method Swapin(pm: PhysMem, addr: int, pid: bv32) returns (r: SwapinResult)
      requires Valid() && pm.Valid() && IsU32(addr)
      modifies pm`nfreepages, pm`nextFree, pm.coremap
      ensures pm.Valid()
      ensures r == SwapinNoMem <==> old(pm.nfreepages) == 0
      ensures r == SwapinNotFound <==>
        old(pm.nfreepages) != 0 && FirstWhere(slots, SlotFor(SwapKey(pm, addr), pid), 0).None?
      ensures r != SwapinOk ==>
        pm.coremap[..] == old(pm.coremap[..]) && pm.nfreepages == old(pm.nfreepages)
        && pm.nextFree == old(pm.nextFree)
      ensures r == SwapinOk ==>
        old(pm.nfreepages) != 0 && FirstWhere(slots, SlotFor(SwapKey(pm, addr), pid), 0).Some?
        && match ScanFree(old(pm.coremap[..]), old(pm.nextFree), 0)
          case None =>
            pm.coremap[..] == old(pm.coremap[..]) && pm.nfreepages == old(pm.nfreepages)
            && pm.nextFree == if old(pm.nextFree) + 1 >= pm.lastPage then 0 else old(pm.nextFree) + 1
          case Some(k) =>
            k < pm.lastPage && pm.coremap[..] == old(pm.coremap[..])[k := SwapinWord(pid)]
            && pm.nfreepages == Wrap32(old(pm.nfreepages) - 1)
            && pm.nextFree == if k + 1 >= pm.lastPage then 0 else k + 1
      ensures old(pm.Counted()) ==> pm.Counted()
      ensures old(FreeIsZero(pm.coremap[..])) ==> FreeIsZero(pm.coremap[..])
    {
      if pm.nfreepages == 0 {
        return SwapinNoMem;
      }
      var start := pm.nextFree;
      var key := pm.FrameIndexOf(KvaddrToPaddr(addr));
      var sidx := FindSwapIdx(key, pid);
      if sidx.None? {
        return SwapinNotFound;
      }
      ghost var cm0 := pm.coremap[..];
      ghost var origin := pm.nextFree;
      var i := 0;
      while i < pm.lastPage
        invariant 0 <= i <= pm.lastPage && start == Circ(origin, i, pm.lastPage)
        invariant pm.coremap[..] == cm0 && pm.nfreepages == old(pm.nfreepages) && pm.nextFree == origin
        invariant ScanFree(cm0, origin, 0) == ScanFree(cm0, origin, i)
      {
        if IsPpageFree(pm.coremap[start]) {
          pm.coremap[start] := SwapinWord(pid);
          pm.nfreepages := Wrap32(pm.nfreepages - 1);
          break;
        }
        start := start + 1;
        if start >= pm.lastPage {
          start := 0;
        }
        i := i + 1;
      }
      pm.nextFree := start + 1;
      if pm.nextFree >= pm.lastPage {
        pm.nextFree := 0;
      }
      SwapinWordFields(pid);
      ClaimOneKeepsCount(cm0, old(pm.nfreepages), origin, SwapinWord(pid));
      return SwapinOk;
    }
  }
}
