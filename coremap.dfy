/** The physical frame directory ("coremap"): one descriptor word per frame managed by the VM,
    the count of free frames and the rotating allocation cursor. acquire_pages is a first-fit
    contiguous-run allocator, acquire_one_page the single-frame fast path, free_kpages releases
    a run forward up to the frame tagged PP_ALLOC_END. */
module Coremap {
  import opened Common
  import opened VmDefs

  /** The word an allocation stores: DIRTY|USE|pb (the shifted pid), plus ALLOC_END on the run's last frame. */
  function AllocWord(pb: bv32, isEnd: bool): (w: bv32)
    requires pb & 0x3F == 0
    ensures IsPpageInRam(w) && IsPpageUse(w) && (IsPpageAllocEnd(w) <==> isEnd)
    ensures w & PP_PID_MASK == pb & PP_PID_MASK
  {
    (if isEnd then PP_ALLOC_END else 0) | PP_DIRTY | PP_USE | pb
  }

  /** Number of FREE descriptors. */
  function CountFree(s: seq<bv32>): (n: nat)
    ensures n <= |s|
  {
    if s == [] then 0
    else CountFree(s[..|s| - 1]) + (if IsPpageFree(s[|s| - 1]) then 1 else 0)
  }

  function Bit(b: bool): nat { if b then 1 else 0 }

  /** Rewriting one descriptor changes the free count by the change in that descriptor's state. */
  lemma {:induction false} CountFreeUpdate(s: seq<bv32>, i: nat, w: bv32)
    requires i < |s|
    ensures CountFree(s[i := w]) + Bit(IsPpageFree(s[i])) == CountFree(s) + Bit(IsPpageFree(w))
    decreases |s|
  {
    var t := s[i := w];
    assert t[..|t| - 1] == if i == |s| - 1 then s[..|s| - 1] else s[..|s| - 1][i := w];
    if i < |s| - 1 {
      CountFreeUpdate(s[..|s| - 1], i, w);
    }
  }

  // ---------------------------------------------------------------------------------------
  // acquire_pages: specification of the scan

  /** The scan of acquire_pages after `i` iterations, with cursor `pos` and current run
      length `nfree`: the end of the run it finds (the new next_free), or None. The run
      length is reset when the cursor wraps, before it is compared with `n`. */
  function RunScan(cm: seq<bv32>, n: nat, i: nat, pos: nat, nfree: nat): (e: Option<nat>)
    requires pos < |cm|
    ensures e.Some? ==> e.value < |cm|
    decreases |cm| - i
  {
    if i >= |cm| then None
    else
      var nf := if IsPpageFree(cm[pos]) then nfree + 1 else 0;
      var wrapped := pos + 1 >= |cm|;
      var next := if wrapped then 0 else pos + 1;
      var nf2 := if wrapped then 0 else nf;
      if nf2 == n then Some(next) else RunScan(cm, n, i + 1, next, nf2)
  }

  /** A run RunScan reports is made of FREE frames, lies below the last frame and ends at
      the returned cursor. */
  lemma {:induction false} RunScanSound(cm: seq<bv32>, n: nat, i: nat, pos: nat, nfree: nat)
    requires pos < |cm| && nfree <= pos
    requires forall k :: pos - nfree <= k < pos ==> IsPpageFree(cm[k])
    ensures RunScan(cm, n, i, pos, nfree).Some? ==>
      var e := RunScan(cm, n, i, pos, nfree).value;
      n <= e < |cm| && (n > 0 ==> e + 1 < |cm| + 1 && e > 0)
      && forall k :: e - n <= k < e ==> IsPpageFree(cm[k])
    decreases |cm| - i
  {
    if i < |cm| {
      var nf := if IsPpageFree(cm[pos]) then nfree + 1 else 0;
      var wrapped := pos + 1 >= |cm|;
      var next := if wrapped then 0 else pos + 1;
      var nf2 := if wrapped then 0 else nf;
      if nf2 != n {
        RunScanSound(cm, n, i + 1, next, nf2);
      }
    }
  }

  /** First fit: when a run of n FREE frames lies at or after the cursor and does not reach
      the last frame, the scan finds a run ending no later than that one. */
  lemma {:induction false} RunScanFirstFit(cm: seq<bv32>, n: nat, i: nat, pos: nat, nfree: nat, k: nat)
    requires 1 <= n && pos < |cm| && nfree < n
    requires pos <= k + n - 1 && k + n < |cm|
    requires i + (k + n - 1 - pos) < |cm|
    requires forall j :: k <= j < k + n ==> IsPpageFree(cm[j])
    requires pos >= k ==> nfree >= pos - k
    ensures RunScan(cm, n, i, pos, nfree).Some?
    ensures RunScan(cm, n, i, pos, nfree).value <= k + n
    decreases k + n - pos
  {
    var nf := if IsPpageFree(cm[pos]) then nfree + 1 else 0;
    if nf != n {
      RunScanFirstFit(cm, n, i + 1, pos + 1, nf, k);
    }
  }

  /** The run reported by acquire_pages, started from the cursor with an empty run. */
  lemma FirstFitFromCursor(cm: seq<bv32>, n: nat, s: nat, k: nat)
    requires 1 <= n && s <= k && k + n < |cm|
    requires forall j :: k <= j < k + n ==> IsPpageFree(cm[j])
    ensures RunScan(cm, n, 0, s, 0).Some? && RunScan(cm, n, 0, s, 0).value <= k + n
  {
    RunScanFirstFit(cm, n, 0, s, 0, k);
  }

  /** Second pass: once the scan has wrapped to frame 0 with `i == |cm| - s + pos`, it visits
      frames pos .. s - 1 only, so a run it reports ends at or before the cursor s. */
  lemma {:induction false} SecondPassEndsBeforeCursor(cm: seq<bv32>, n: nat, s: nat, i: nat, pos: nat, nfree: nat)
    requires 1 <= n && pos <= s < |cm| && i == |cm| - s + pos
    ensures RunScan(cm, n, i, pos, nfree).Some? ==> RunScan(cm, n, i, pos, nfree).value <= s
    decreases s - pos
  {
    if pos < s {
      var nf := if IsPpageFree(cm[pos]) then nfree + 1 else 0;
      if nf != n {
        SecondPassEndsBeforeCursor(cm, n, s, i + 1, pos + 1, nf);
      }
    }
  }

  /** First pass: from the cursor s up to the last frame the run length counts only frames
      at or after s, so a run reported before the wrap starts at or after s; after the wrap
      the second pass applies. */
  lemma {:induction false} FirstPassNoStraddle(cm: seq<bv32>, n: nat, s: nat, pos: nat, nfree: nat)
    requires 1 <= n && s <= pos < |cm| && nfree <= pos - s
    ensures var r := RunScan(cm, n, pos - s, pos, nfree);
      r.Some? ==> r.value <= s || r.value - n >= s
    decreases |cm| - pos
  {
    var nf := if IsPpageFree(cm[pos]) then nfree + 1 else 0;
    if pos + 1 >= |cm| {
      SecondPassEndsBeforeCursor(cm, n, s, pos - s + 1, 0, 0);
    } else if nf != n {
      FirstPassNoStraddle(cm, n, s, pos + 1, nf);
    }
  }

  /** No run acquire_pages reports contains the last frame or straddles the cursor: the run
      [e - n, e) ends below the last frame and lies wholly before or wholly after s. */
  lemma ReportedRunPlacement(cm: seq<bv32>, n: nat, s: nat)
    requires 1 <= n && s < |cm|
    ensures var r := RunScan(cm, n, 0, s, 0);
      r.Some? ==> n <= r.value <= |cm| - 1 && (r.value <= s || r.value - n >= s)
  {
    RunScanSound(cm, n, 0, s, 0);
    FirstPassNoStraddle(cm, n, s, s, 0);
  }

  /** Second-pass first fit, climbing the first pass: a FREE run lying wholly before the
      cursor is found, by the first pass or else after the wrap. */
  lemma {:induction false} FirstPassThenSecond(cm: seq<bv32>, n: nat, s: nat, pos: nat, nfree: nat, k: nat)
    requires 1 <= n && s <= pos < |cm| && k + n <= s
    requires forall j :: k <= j < k + n ==> IsPpageFree(cm[j])
    ensures RunScan(cm, n, pos - s, pos, nfree).Some?
    decreases |cm| - pos
  {
    var nf := if IsPpageFree(cm[pos]) then nfree + 1 else 0;
    if pos + 1 >= |cm| {
      RunScanFirstFit(cm, n, pos - s + 1, 0, 0, k);
    } else if nf != n {
      FirstPassThenSecond(cm, n, s, pos + 1, nf, k);
    }
  }

  /** acquire_pages finds a run of n FREE frames lying wholly before the cursor. */
  lemma FirstFitBeforeCursor(cm: seq<bv32>, n: nat, s: nat, k: nat)
    requires 1 <= n && s < |cm| && k + n <= s
    requires forall j :: k <= j < k + n ==> IsPpageFree(cm[j])
    ensures RunScan(cm, n, 0, s, 0).Some?
  {
    FirstPassThenSecond(cm, n, s, s, 0, k);
  }

  /** Frames k .. k + n - 1 exist and are all FREE. */
  ghost predicate FreeRunAt(cm: seq<bv32>, k: nat, n: nat) {
    k + n <= |cm| && forall j :: k <= j < k + n ==> IsPpageFree(cm[j])
  }

  /** acquire_pages fails exactly when every run of n FREE frames ends on the last frame or
      straddles the cursor. */
  lemma RunScanNoneIff(cm: seq<bv32>, n: nat, s: nat)
    requires 1 <= n && s < |cm|
    ensures RunScan(cm, n, 0, s, 0).None? <==>
      forall k: nat :: FreeRunAt(cm, k, n) ==> k + n == |cm| || k < s < k + n
  {
    if RunScan(cm, n, 0, s, 0).None? {
      forall k: nat | FreeRunAt(cm, k, n) ensures k + n == |cm| || k < s < k + n {
        if k + n < |cm| && s <= k {
          FirstFitFromCursor(cm, n, s, k);
        } else if k + n <= s {
          FirstFitBeforeCursor(cm, n, s, k);
        }
      }
    } else {
      var e := RunScan(cm, n, 0, s, 0).value;
      RunScanSound(cm, n, 0, s, 0);
      ReportedRunPlacement(cm, n, s);
      assert FreeRunAt(cm, e - n, n);
    }
  }

  /** A run that ends on the last frame is never found: the count is reset by the wrap
      before it is compared. Three frames, the last two FREE, a request for two. */
  lemma RunAtTopNeverFound()
    ensures RunScan([PP_DIRTY, PP_FREE, PP_FREE], 2, 0, 0, 0) == None
  {
    var cm := [PP_DIRTY, PP_FREE, PP_FREE];
    assert RunScan(cm, 2, 2, 2, 1) == None;
    assert RunScan(cm, 2, 1, 1, 0) == None;
  }

  /** A run that straddles the cursor is missed too: the first pass starts counting at the
      cursor and the second pass stops just before it. Frames 1 and 2 are FREE, the cursor
      is at 2, and a request for two frames fails. */
  lemma RunAcrossCursorMissed()
    ensures RunScan([PP_DIRTY, PP_FREE, PP_FREE, PP_DIRTY], 2, 0, 2, 0) == None
  {
    var cm := [PP_DIRTY, PP_FREE, PP_FREE, PP_DIRTY];
    assert RunScan(cm, 2, 3, 1, 0) == None;
    assert RunScan(cm, 2, 2, 0, 0) == None;
    assert RunScan(cm, 2, 1, 3, 1) == None;
  }

  /** The descriptors after marking [lo, hi): ALLOC_END on frame hi - 1 only. */
  function MarkRun(cm: seq<bv32>, lo: nat, hi: nat, pb: bv32): (r: seq<bv32>)
    requires lo <= hi <= |cm| && pb & 0x3F == 0
    ensures |r| == |cm|
    ensures forall k :: 0 <= k < |cm| ==> r[k] == if lo <= k < hi then AllocWord(pb, k == hi - 1) else cm[k]
  {
    seq(|cm|, k requires 0 <= k < |cm| => if lo <= k < hi then AllocWord(pb, k == hi - 1) else cm[k])
  }

  /** Extending a marked run one frame downwards rewrites only that frame. */
  lemma MarkRunStep(cm: seq<bv32>, lo: nat, hi: nat, pb: bv32)
    requires lo < hi <= |cm| && pb & 0x3F == 0
    ensures MarkRun(cm, lo, hi, pb) == MarkRun(cm, lo + 1, hi, pb)[lo := AllocWord(pb, lo == hi - 1)]
  {
  }

  /** Marking a run of FREE frames lowers the free count by its length. */
  lemma {:induction false} CountMarkRun(cm: seq<bv32>, lo: nat, hi: nat, pb: bv32)
    requires lo <= hi <= |cm| && pb & 0x3F == 0
    requires forall k :: lo <= k < hi ==> IsPpageFree(cm[k])
    ensures CountFree(MarkRun(cm, lo, hi, pb)) + (hi - lo) == CountFree(cm)
    decreases hi - lo
  {
    if lo < hi {
      CountMarkRun(cm, lo + 1, hi, pb);
      MarkRunStep(cm, lo, hi, pb);
      CountFreeUpdate(MarkRun(cm, lo + 1, hi, pb), lo, AllocWord(pb, lo == hi - 1));
    } else {
      assert MarkRun(cm, lo, hi, pb) == cm;
    }
  }

  // ---------------------------------------------------------------------------------------
  // acquire_one_page: specification of the scan

  /** Offset d from origin, wrapping once past the end of a directory of n frames. */
  function Circ(origin: nat, d: nat, n: nat): (k: nat)
    requires origin < n && d <= n
    ensures k < n
  {
    if origin + d < n then origin + d else origin + d - n
  }

  /** acquire_one_page's scan: the first FREE frame among offsets d, d+1, ... |cm|-1 from
      `origin`, visited circularly. */
  function ScanFree(cm: seq<bv32>, origin: nat, d: nat): (k: Option<nat>)
    requires origin < |cm|
    ensures k.Some? ==> k.value < |cm| && IsPpageFree(cm[k.value])
    decreases |cm| - d
  {
    if d >= |cm| then None
    else if IsPpageFree(cm[Circ(origin, d, |cm|)]) then Some(Circ(origin, d, |cm|))
    else ScanFree(cm, origin, d + 1)
  }

  /** ScanFree finds the first FREE frame in circular order from the origin, and finds none
      only when every frame from offset d on is in use. */
  lemma {:induction false} ScanFreeSpec(cm: seq<bv32>, origin: nat, d: nat)
    requires origin < |cm| && d <= |cm|
    ensures ScanFree(cm, origin, d).Some? ==>
      var k := ScanFree(cm, origin, d).value;
      k < |cm| && IsPpageFree(cm[k])
      && exists t :: d <= t < |cm| && k == Circ(origin, t, |cm|)
                     && forall u :: d <= u < t ==> !IsPpageFree(cm[Circ(origin, u, |cm|)])
    ensures ScanFree(cm, origin, d).None? ==>
      forall u :: d <= u < |cm| ==> !IsPpageFree(cm[Circ(origin, u, |cm|)])
    decreases |cm| - d
  {
    if d < |cm| {
      if IsPpageFree(cm[Circ(origin, d, |cm|)]) {
        assert d <= d < |cm| && ScanFree(cm, origin, d).value == Circ(origin, d, |cm|);
      } else {
        ScanFreeSpec(cm, origin, d + 1);
        if ScanFree(cm, origin, d).Some? {
          var k := ScanFree(cm, origin, d).value;
          var t :| d + 1 <= t < |cm| && k == Circ(origin, t, |cm|)
                   && forall u :: d + 1 <= u < t ==> !IsPpageFree(cm[Circ(origin, u, |cm|)]);
          assert forall u :: d <= u < t ==> !IsPpageFree(cm[Circ(origin, u, |cm|)]);
        }
      }
    }
  }

  /** Scanning a whole circle from the origin reports no frame only when no frame is FREE. */
  lemma ScanFreeNoneIffFull(cm: seq<bv32>, origin: nat)
    requires origin < |cm|
    ensures ScanFree(cm, origin, 0).None? <==> forall k :: 0 <= k < |cm| ==> !IsPpageFree(cm[k])
  {
    ScanFreeSpec(cm, origin, 0);
    if ScanFree(cm, origin, 0).None? {
      forall k | 0 <= k < |cm| ensures !IsPpageFree(cm[k]) {
        var t := if k >= origin then k - origin else k + |cm| - origin;
        assert Circ(origin, t, |cm|) == k;
      }
    }
  }

  // ---------------------------------------------------------------------------------------
  // free_kpages: specification of the walk

  /** Number of frames free_kpages releases from idx: up to and including the first frame
      tagged ALLOC_END, or up to the last frame when none is. */
  function FreeRunLen(cm: seq<bv32>, idx: nat): (len: nat)
    requires idx < |cm|
    ensures 1 <= len <= |cm| - idx
    decreases |cm| - idx
  {
    if IsPpageAllocEnd(cm[idx]) || idx + 1 >= |cm| then 1 else 1 + FreeRunLen(cm, idx + 1)
  }

  /** The walk stops exactly at the ALLOC_END frame or at the top of the directory. */
  lemma {:induction false} FreeRunLenSpec(cm: seq<bv32>, idx: nat)
    requires idx < |cm|
    ensures var len := FreeRunLen(cm, idx);
      (forall j :: idx <= j < idx + len - 1 ==> !IsPpageAllocEnd(cm[j]))
      && (IsPpageAllocEnd(cm[idx + len - 1]) || idx + len == |cm|)
    decreases |cm| - idx
  {
    if !(IsPpageAllocEnd(cm[idx]) || idx + 1 >= |cm|) {
      FreeRunLenSpec(cm, idx + 1);
    }
  }

  /** The descriptors after freeing [idx, idx + len). */
  function FreeRun(cm: seq<bv32>, idx: nat, len: nat): (r: seq<bv32>)
    requires idx + len <= |cm|
    ensures |r| == |cm|
    ensures forall k :: 0 <= k < |cm| ==> r[k] == if idx <= k < idx + len then PP_FREE else cm[k]
  {
    seq(|cm|, k requires 0 <= k < |cm| => if idx <= k < idx + len then PP_FREE else cm[k])
  }

  /** Extending a freed run one frame upwards rewrites only that frame. */
  lemma FreeRunStep(cm: seq<bv32>, idx: nat, len: nat)
    requires idx + len < |cm|
    ensures FreeRun(cm, idx, len + 1) == FreeRun(cm, idx, len)[idx + len := PP_FREE]
  {
  }

  /** Freeing writes zero words only, so FREE words stay zero. */
  lemma FreeRunKeepsFreeZero(cm: seq<bv32>, idx: nat, len: nat)
    requires idx + len <= |cm|
    ensures FreeIsZero(cm) ==> FreeIsZero(FreeRun(cm, idx, len))
  {
  }

  /** Freeing a run of allocated frames raises the free count by its length. */
  lemma {:induction false} CountFreeRun(cm: seq<bv32>, idx: nat, len: nat)
    requires idx + len <= |cm|
    requires forall k :: idx <= k < idx + len ==> !IsPpageFree(cm[k])
    ensures CountFree(FreeRun(cm, idx, len)) == CountFree(cm) + len
    decreases len
  {
    if len > 0 {
      CountFreeRun(cm, idx + 1, len - 1);
      assert FreeRun(cm, idx, len) == FreeRun(cm, idx + 1, len - 1)[idx := PP_FREE];
      CountFreeUpdate(FreeRun(cm, idx + 1, len - 1), idx, PP_FREE);
    } else {
      assert FreeRun(cm, idx, len) == cm;
    }
  }

  /** Every FREE descriptor is the zero word (what vm_bootstrap, free_kpages, free_sbrk_pages
      and swapout write), so freeing restores the exact words. */
  predicate FreeIsZero(cm: seq<bv32>) {
    forall k :: 0 <= k < |cm| && IsPpageFree(cm[k]) ==> cm[k] == PP_FREE
  }

  /** Claiming a run of FREE frames keeps a correct free count correct, without wrapping,
      and keeps FREE words zero. */
  lemma ClaimKeepsCount(cm: seq<bv32>, n: int, lo: nat, hi: nat, pb: bv32)
    requires lo <= hi <= |cm| && pb & 0x3F == 0 && IsU32(n)
    requires forall k :: lo <= k < hi ==> IsPpageFree(cm[k])
    ensures n == CountFree(cm) ==> IsU32(n - (hi - lo)) && n - (hi - lo) == CountFree(MarkRun(cm, lo, hi, pb))
    ensures FreeIsZero(cm) ==> FreeIsZero(MarkRun(cm, lo, hi, pb))
  {
    CountMarkRun(cm, lo, hi, pb);
  }

  /** Alloc/free round trip: freeing the base of a run marked by acquire_pages releases
      exactly that run and restores every descriptor. */
  lemma {:induction false} MarkThenFree(cm: seq<bv32>, lo: nat, hi: nat, pb: bv32)
    requires lo < hi <= |cm| && pb & 0x3F == 0 && FreeIsZero(cm)
    requires forall k :: lo <= k < hi ==> IsPpageFree(cm[k])
    ensures FreeRunLen(MarkRun(cm, lo, hi, pb), lo) == hi - lo
    ensures FreeRun(MarkRun(cm, lo, hi, pb), lo, hi - lo) == cm
    decreases hi - lo
  {
    var m := MarkRun(cm, lo, hi, pb);
    if lo + 1 < hi {
      MarkThenFree(cm, lo + 1, hi, pb);
      var m' := MarkRun(cm, lo + 1, hi, pb);
      assert forall k :: lo + 1 <= k < |cm| ==> m[k] == m'[k];
      FreeRunLenTail(m, m', lo + 1);
    }
  }

  /** FreeRunLen depends only on the descriptors at and above its start. */
  lemma {:induction false} FreeRunLenTail(a: seq<bv32>, b: seq<bv32>, idx: nat)
    requires |a| == |b| && idx < |a|
    requires forall k :: idx <= k < |a| ==> a[k] == b[k]
    ensures FreeRunLen(a, idx) == FreeRunLen(b, idx)
    decreases |a| - idx
  {
    if !(IsPpageAllocEnd(a[idx]) || idx + 1 >= |a|) {
      FreeRunLenTail(a, b, idx + 1);
    }
  }

  /** The single-frame round trip: acquire_one_page's word carries ALLOC_END, so freeing
      the frame releases it alone. */
  lemma OneThenFree(cm: seq<bv32>, k: nat, pb: bv32)
    requires k < |cm| && pb & 0x3F == 0 && cm[k] == PP_FREE
    ensures FreeRunLen(cm[k := AllocWord(pb, true)], k) == 1
    ensures FreeRun(cm[k := AllocWord(pb, true)], k, 1) == cm
  {
  }

  // ---------------------------------------------------------------------------------------

  class PhysMem {
    /** _coremap: one descriptor per frame the VM manages. */
    const coremap: array<bv32>
    /** last_page: number of managed frames. */
    const lastPage: nat
    /** user_base_addr: physical address of frame 0. */
    const userBase: nat
    /** nfreepages: unsigned count of free frames. */
    var nfreepages: int
    /** next_free: rotating cursor where allocation scans start. */
    var nextFree: nat

    ghost predicate Valid()
      reads this`nextFree, this`nfreepages
    {
      coremap.Length == lastPage && 0 < lastPage && nextFree < lastPage && IsU32(nfreepages)
      && 0 < userBase && userBase % PAGE_SIZE == 0 && userBase + lastPage * PAGE_SIZE <= U32
    }

    /** The counter agrees with the directory. */
    ghost predicate Counted()
      reads this`nfreepages, coremap
    {
      nfreepages == CountFree(coremap[..])
    }

    /** Physical address of frame k. */
    function FrameAddr(k: nat): int {
      userBase + k * 4096
    }

    /** The frame index free_kpages computes from a physical address, in unsigned arithmetic. */
    function FrameIndexOf(paddr: int): (idx: int)
      requires IsU32(paddr) && IsU32(userBase)
      ensures 0 <= idx < U32 / PAGE_SIZE
    {
      Wrap32(PageFrame(paddr) - userBase) / 4096
    }

    /** The address of a frame, anywhere inside the frame, maps back to that frame. */
    lemma FrameIndexOfAddr(k: nat, off: nat)
      requires Valid() && k < lastPage && off < PAGE_SIZE
      ensures IsU32(FrameAddr(k) + off) && FrameIndexOf(FrameAddr(k) + off) == k
      ensures (FrameAddr(k) + off) % PAGE_SIZE == off
    {
      assert (userBase + k * PAGE_SIZE + off) % PAGE_SIZE == off;
    }

    /** The descriptors and free count free_kpages leaves, as a function of those it finds. */
    function AfterFree(cm: seq<bv32>, n: int, addr: int): (r: (seq<bv32>, int))
      requires |cm| == lastPage && lastPage < U32 && IsU32(n) && IsU32(addr) && IsU32(userBase)
      ensures |r.0| == lastPage && IsU32(r.1)
    {
      var idx := FrameIndexOf(KvaddrToPaddr(addr));
      if idx >= lastPage then (cm, n)
      else (FreeRun(cm, idx, FreeRunLen(cm, idx)), Wrap32(n + FreeRunLen(cm, idx)))
    }

    /** free_kpages applied to each address of ps in turn. */
    function AfterFrees(cm: seq<bv32>, n: int, ps: seq<int>): (r: (seq<bv32>, int))
      requires |cm| == lastPage && lastPage < U32 && IsU32(n) && IsU32(userBase)
      requires forall k :: 0 <= k < |ps| ==> IsU32(ps[k])
      ensures |r.0| == lastPage && IsU32(r.1)
      decreases |ps|
    {
      if ps == [] then (cm, n)
      else
        var r := AfterFrees(cm, n, ps[..|ps| - 1]);
        AfterFree(r.0, r.1, ps[|ps| - 1])
    }

    /** Freeing one more address extends the sequence of frees. */
    lemma AfterFreesSnoc(cm: seq<bv32>, n: int, ps: seq<int>, p: int)
      requires |cm| == lastPage && lastPage < U32 && IsU32(n) && IsU32(userBase) && IsU32(p)
      requires forall k :: 0 <= k < |ps| ==> IsU32(ps[k])
      ensures var r := AfterFrees(cm, n, ps);
        AfterFrees(cm, n, ps + [p]) == AfterFree(r.0, r.1, p)
    {
      assert (ps + [p])[..|ps|] == ps;
    }

    /** Freeing a + b is freeing a, then b from where a left the directory. */
    lemma {:induction false} AfterFreesAppend(cm: seq<bv32>, n: int, a: seq<int>, b: seq<int>)
      requires |cm| == lastPage && lastPage < U32 && IsU32(n) && IsU32(userBase)
      requires forall k :: 0 <= k < |a| ==> IsU32(a[k])
      requires forall k :: 0 <= k < |b| ==> IsU32(b[k])
      ensures forall k :: 0 <= k < |a + b| ==> IsU32((a + b)[k])
      ensures AfterFrees(cm, n, a + b) == var r := AfterFrees(cm, n, a); AfterFrees(r.0, r.1, b)
      decreases |b|
    {
      if b == [] {
        assert a + b == a;
      } else {
        var b' := b[..|b| - 1];
        AfterFreesAppend(cm, n, a, b');
        assert (a + b)[..|a + b| - 1] == a + b';
      }
    }

    /** vm_bootstrap's directory: every managed frame FREE, the cursor at 0. */
    constructor (lastPage: nat, userBase: nat)
      requires 0 < lastPage && 0 < userBase && userBase % PAGE_SIZE == 0
      requires userBase + lastPage * PAGE_SIZE <= U32
      ensures Valid() && Counted() && FreeIsZero(coremap[..]) && fresh(coremap)
      ensures this.lastPage == lastPage && this.userBase == userBase
      ensures nfreepages == lastPage && nextFree == 0
      ensures forall k :: 0 <= k < lastPage ==> coremap[k] == PP_FREE
    {
      this.lastPage := lastPage;
      this.userBase := userBase;
      coremap := new bv32[lastPage](_ => PP_FREE);
      nfreepages := lastPage;
      nextFree := 0;
      new;
      AllFreeCount(coremap[..]);
    }

    /** acquire_pages: claims the first run of npages FREE frames found scanning from
        next_free (never wrapping a run), tags its highest frame ALLOC_END, and returns its
        physical address; returns 0 and changes nothing when the scan finds no run. */
    method AcquirePages(npages: nat, pb: bv32) returns (paddr: int)
      requires Valid() && pb & 0x3F == 0 && IsU32(npages)
      modifies this`nfreepages, this`nextFree, coremap
      ensures Valid()
      ensures match RunScan(old(coremap[..]), npages, 0, old(nextFree), 0)
        case None =>
          paddr == 0 && coremap[..] == old(coremap[..])
          && nfreepages == old(nfreepages) && nextFree == old(nextFree)
        case Some(e) =>
          npages <= e < lastPage && paddr == FrameAddr(e - npages) && paddr > 0
          && coremap[..] == MarkRun(old(coremap[..]), e - npages, e, pb)
          && nfreepages == Wrap32(old(nfreepages) - npages) && nextFree == e
      ensures old(Counted()) ==> Counted() && (paddr != 0 ==> nfreepages == old(nfreepages) - npages)
      ensures old(FreeIsZero(coremap[..])) ==> FreeIsZero(coremap[..])
    {
      ghost var cm0 := coremap[..];
      var found, e := ScanForRun(npages);
      paddr := 0;
      if found {
        nextFree := e;
        paddr := ClaimRun(e, npages, pb);
        ClaimKeepsCount(cm0, old(nfreepages), e - npages, e, pb);
      }
    }

    /** The scanning loop of acquire_pages: walks the cursor from next_free for last_page
        steps, counting consecutive FREE frames and restarting the count at every non-FREE
        frame and at the wrap; stops as soon as the count reaches npages. */
    method ScanForRun(npages: nat) returns (found: bool, e: nat)
      requires Valid()
      ensures found <==> RunScan(coremap[..], npages, 0, nextFree, 0).Some?
      ensures found ==> RunScan(coremap[..], npages, 0, nextFree, 0) == Some(e) && npages <= e < lastPage
      ensures found ==> forall k :: e - npages <= k < e ==> IsPpageFree(coremap[k])
    {
      ghost var cm0 := coremap[..];
      var nfree: nat := 0;
      var start: nat := nextFree;
      var i := 0;
      RunScanSound(cm0, npages, 0, start, 0);
      while i < lastPage
        invariant 0 <= i <= lastPage && start < lastPage
        invariant RunScan(cm0, npages, 0, nextFree, 0) == RunScan(cm0, npages, i, start, nfree)
      {
        if IsPpageFree(coremap[start]) {
          nfree := nfree + 1;
        } else {
          nfree := 0;
        }
        start := start + 1;
        if start >= lastPage {
          // runs never wrap around the end of the directory
          start := 0;
          nfree := 0;
        }
        if nfree == npages {
          return true, start;
        }
        i := i + 1;
      }
      return false, 0;
    }

    /** The marking loop of acquire_pages: walks down from just below `e`, writing the
        allocation word to each of npages frames (ALLOC_END on the first one written, the
        highest) and decrementing nfreepages once per frame. */
    method ClaimRun(e: nat, npages: nat, pb: bv32) returns (paddr: int)
      requires Valid() && pb & 0x3F == 0 && npages <= e < lastPage && IsU32(npages)
      requires forall k :: e - npages <= k < e ==> IsPpageFree(coremap[k])
      modifies this`nfreepages, coremap
      ensures Valid() && nextFree == old(nextFree)
      ensures paddr == FrameAddr(e - npages) && paddr > 0
      ensures coremap[..] == MarkRun(old(coremap[..]), e - npages, e, pb)
      ensures nfreepages == Wrap32(old(nfreepages) - npages)
    {
      ghost var cm0 := coremap[..];
      ghost var n0 := nfreepages;
      var start := e;
      var j := 0;
      while j < npages
        invariant 0 <= j <= npages && start == e - j
        invariant coremap[..] == MarkRun(cm0, start, e, pb)
        invariant nfreepages == Wrap32(n0 - j)
      {
        start := start - 1;
        MarkRunStep(cm0, start, e, pb);
        coremap[start] := AllocWord(pb, j == 0);
        Wrap32Add(n0 - j, -1);
        assert n0 - j + -1 == n0 - (j + 1);
        nfreepages := Wrap32(nfreepages - 1);
        j := j + 1;
      }
      paddr := FrameAddr(start);
    }

    /** acquire_one_page: claims the first FREE frame at or after next_free, circularly,
        writing ALLOC_END|DIRTY|USE|pid<<6, and moves next_free just past it. When no frame
        is FREE nothing changes, yet the address of frame next_free is still returned: the
        result is never 0, so callers cannot detect failure. */
    method AcquireOnePage(pb: bv32) returns (paddr: int)
      requires Valid() && pb & 0x3F == 0
      modifies this`nfreepages, this`nextFree, coremap
      ensures Valid() && paddr > 0
      ensures match ScanFree(old(coremap[..]), old(nextFree), 0)
        case None =>
          paddr == FrameAddr(old(nextFree)) && coremap[..] == old(coremap[..])
          && nfreepages == old(nfreepages) && nextFree == old(nextFree)
        case Some(k) =>
          k < lastPage && paddr == FrameAddr(k) && IsPpageFree(old(coremap[k]))
          && coremap[..] == old(coremap[..])[k := AllocWord(pb, true)]
          && nfreepages == Wrap32(old(nfreepages) - 1)
          && nextFree == if k + 1 >= lastPage then 0 else k + 1
      ensures old(Counted()) ==> Counted()
      ensures old(Counted()) && old(nfreepages) > 0 ==>
        ScanFree(old(coremap[..]), old(nextFree), 0).Some? && nfreepages == old(nfreepages) - 1
      ensures old(FreeIsZero(coremap[..])) ==> FreeIsZero(coremap[..])
    {
      ghost var cm0 := coremap[..];
      var start := nextFree;
      var i := 0;
      while i < lastPage
        invariant 0 <= i <= lastPage && start == Circ(old(nextFree), i, lastPage)
        invariant coremap[..] == cm0 && nfreepages == old(nfreepages) && nextFree == old(nextFree)
        invariant ScanFree(cm0, old(nextFree), 0) == ScanFree(cm0, old(nextFree), i)
      {
        if IsPpageFree(coremap[start]) {
          coremap[start] := AllocWord(pb, true);
          nfreepages := Wrap32(nfreepages - 1);
          nextFree := start + 1;
          if nextFree >= lastPage {
            nextFree := 0;
          }
          break;
        }
        start := start + 1;
        if start >= lastPage {
          start := 0;
        }
        i := i + 1;
      }
      if start == lastPage {
        // unreachable: start is always wrapped below last_page
        start := 0;
      }
      paddr := FrameAddr(start);
      ClaimOneKeepsCount(cm0, old(nfreepages), old(nextFree), AllocWord(pb, true));
    }

    /** free_kpages: translates the kernel address to a physical one and releases forward from
        its frame, through the frame tagged
        ALLOC_END (or the last frame), setting each to PP_FREE and counting each as free.
        An address outside the managed frames is ignored. */
    method FreeKPages(addr: int)
      requires Valid() && IsU32(addr)
      modifies this`nfreepages, coremap
      ensures Valid() && nextFree == old(nextFree)
      ensures FrameIndexOf(KvaddrToPaddr(addr)) >= lastPage ==>
        coremap[..] == old(coremap[..]) && nfreepages == old(nfreepages)
      ensures FrameIndexOf(KvaddrToPaddr(addr)) < lastPage ==>
        var idx := FrameIndexOf(KvaddrToPaddr(addr));
        var len := FreeRunLen(old(coremap[..]), idx);
        coremap[..] == FreeRun(old(coremap[..]), idx, len)
        && nfreepages == Wrap32(old(nfreepages) + len)
      ensures old(FreeIsZero(coremap[..])) ==> FreeIsZero(coremap[..])
      ensures (coremap[..], nfreepages) == AfterFree(old(coremap[..]), old(nfreepages), addr)
    {
      var idx := FrameIndexOf(KvaddrToPaddr(addr));
      if idx >= lastPage {
        return;
      }
      ReleaseRun(idx);
      FreeRunKeepsFreeZero(old(coremap[..]), idx, FreeRunLen(old(coremap[..]), idx));
    }

    /** The do-while loop of free_kpages: frees frames from idx upwards, stopping after the
        frame tagged ALLOC_END or at the last frame. */
    method ReleaseRun(idx: nat)
      requires Valid() && idx < lastPage
      modifies this`nfreepages, coremap
      ensures Valid()
      ensures coremap[..] == FreeRun(old(coremap[..]), idx, FreeRunLen(old(coremap[..]), idx))
      ensures nfreepages == Wrap32(old(nfreepages) + FreeRunLen(old(coremap[..]), idx))
    {
      ghost var cm0 := coremap[..];
      ghost var n0 := nfreepages;
      ghost var len := FreeRunLen(cm0, idx);
      FreeRunLenSpec(cm0, idx);
      var e := idx;
      var done := false;
      while true
        invariant idx <= e < idx + len <= lastPage
        invariant coremap[..] == FreeRun(cm0, idx, e - idx)
        invariant nfreepages == Wrap32(n0 + (e - idx))
        decreases lastPage - e
      {
        assert coremap[e] == cm0[e];
        FreeRunStep(cm0, idx, e - idx);
        done := IsPpageAllocEnd(coremap[e]);
        coremap[e] := PP_FREE;
        ghost var before := n0 + (e - idx);
        e := e + 1;
        Wrap32Add(before, 1);
        assert before + 1 == n0 + (e - idx);
        nfreepages := Wrap32(nfreepages + 1);
        if done || e >= lastPage {
          assert e == idx + len;
          break;
        }
      }
    }
  }

  lemma {:induction false} AllFreeCount(s: seq<bv32>)
    requires forall k :: 0 <= k < |s| ==> s[k] == PP_FREE
    ensures CountFree(s) == |s|
  {
    if s != [] {
      AllFreeCount(s[..|s| - 1]);
    }
  }

  lemma {:induction false} AllFullCount(s: seq<bv32>)
    requires forall k :: 0 <= k < |s| ==> !IsPpageFree(s[k])
    ensures CountFree(s) == 0
  {
    if s != [] {
      AllFullCount(s[..|s| - 1]);
    }
  }

  /** Claiming the frame acquire_one_page (or swapin) finds, with any non-FREE word, keeps a
      correct free count correct, without wrapping, and keeps FREE words zero; a correct
      positive count guarantees a frame is found. */
  lemma ClaimOneKeepsCount(cm: seq<bv32>, n: int, origin: nat, w: bv32)
    requires origin < |cm| && !IsPpageFree(w) && IsU32(n)
    ensures ScanFree(cm, origin, 0).Some? ==>
      var k := ScanFree(cm, origin, 0).value;
      k < |cm| && IsPpageFree(cm[k])
      && (n == CountFree(cm) ==> IsU32(n - 1) && n - 1 == CountFree(cm[k := w]))
      && (FreeIsZero(cm) ==> FreeIsZero(cm[k := w]))
    ensures ScanFree(cm, origin, 0).None? ==> (n == CountFree(cm) ==> n == 0)
  {
    ScanFreeSpec(cm, origin, 0);
    ScanFreeNoneIffFull(cm, origin);
    if ScanFree(cm, origin, 0).Some? {
      var k := ScanFree(cm, origin, 0).value;
      CountFreeUpdate(cm, k, w);
    } else {
      AllFullCount(cm);
    }
  }
}
