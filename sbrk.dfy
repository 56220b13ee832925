/** The sbrk system call: moves the calling process's heap top by a whole number of pages,
    growing the heap with alloc_sbrk_pages and shrinking it with free_sbrk_pages. The sbrk
    lock is not modelled: the call runs alone. */
module Sbrk {
  import opened Common
  import opened VmDefs
  import opened Coremap
  import opened AddrSpaces
  import opened VmOps
  import Tlb

  const I32_MIN: int := -0x8000_0000

  /** intptr_t and int32_t on the 32-bit target. */
  predicate IsI32(x: int) { I32_MIN <= x < 0x8000_0000 }

  /** `(int32_t) x` for an unsigned word: its two's-complement reading. */
  function Signed32(x: int): (r: int)
    requires IsU32(x)
    ensures IsI32(r) && (r == x || r == x - U32)
    ensures Wrap32(r + U32) == x
  {
    if x < 0x8000_0000 then x else x - U32
  }

  /** What sys_sbrk's checks decide before any page is touched. */
  datatype Check = Reject(err: Errno) | Accept(newTop: int)

  /** sys_sbrk's checks, in order: a non-page-multiple amount is EINVAL; the new top, the
      heap top plus the amount in unsigned arithmetic, is EINVAL at or above the stack top or
      below the heap base, ENOMEM above the stack base, and ENOMEM when a growing heap would
      span more than MAX_HEAP bytes from its base. */
  function SbrkCheck(heapTop: int, heapBase: int, stackBase: int, stackTop: int, amount: int): (c: Check)
    requires IsU32(heapTop) && IsU32(heapBase) && IsI32(amount)
    ensures c.Reject? ==> c.err == EInval || c.err == ENoMem
    ensures c.Accept? ==> IsU32(c.newTop) && heapBase <= c.newTop <= stackBase && c.newTop < stackTop
  {
    if amount % PAGE_SIZE != 0 then Reject(EInval)
    else
      var newTop := Wrap32(heapTop + amount);
      if newTop >= stackTop then Reject(EInval)
      else if newTop < heapBase then Reject(EInval)
      else if newTop > stackBase then Reject(ENoMem)
      else if amount > 0 && Wrap32(newTop - heapBase) > MAX_HEAP then Reject(ENoMem)
      else Accept(newTop)
  }

  /** An accepted call puts the new top, the old top moved by the amount modulo 2^32, inside
      the heap's bounds: at or above the heap base, at or below the stack base, below the stack
      top and, for a growing heap, at most MAX_HEAP above the base. */
  lemma SbrkCheckBounds(heapTop: int, heapBase: int, stackBase: int, stackTop: int, amount: int)
    requires IsU32(heapTop) && IsU32(heapBase) && IsI32(amount)
    ensures SbrkCheck(heapTop, heapBase, stackBase, stackTop, amount).Accept? <==>
      var t := (heapTop + amount) % U32;
      amount % PAGE_SIZE == 0 && heapBase <= t < stackTop && t <= stackBase
      && (amount > 0 ==> t - heapBase <= MAX_HEAP)
    ensures SbrkCheck(heapTop, heapBase, stackBase, stackTop, amount).Accept? ==>
      SbrkCheck(heapTop, heapBase, stackBase, stackTop, amount).newTop == (heapTop + amount) % U32
  {
    Wrap32IsMod(heapTop + amount);
    var t := (heapTop + amount) % U32;
    if heapBase <= t {
      Wrap32IsMod(t - heapBase);
    }
  }

  /** Growing the heap and then shrinking it by the same amount is accepted and comes back
      to the old top, for a heap top that lay inside its bounds. */
  lemma GrowThenShrink(heapTop: int, heapBase: int, stackBase: int, stackTop: int, amount: int)
    requires IsU32(heapTop) && IsU32(heapBase) && IsI32(amount) && amount > 0
    requires heapBase <= heapTop <= stackBase && heapTop < stackTop
    requires SbrkCheck(heapTop, heapBase, stackBase, stackTop, amount).Accept?
    ensures SbrkCheck(SbrkCheck(heapTop, heapBase, stackBase, stackTop, amount).newTop,
                      heapBase, stackBase, stackTop, -amount) == Accept(heapTop)
  {
    SbrkCheckBounds(heapTop, heapBase, stackBase, stackTop, amount);
    var t := (heapTop + amount) % U32;
    SbrkCheckBounds(t, heapBase, stackBase, stackTop, -amount);
    assert (t - amount) % U32 == heapTop by {
      var q := (heapTop + amount) / U32;
      assert t - amount == heapTop + (-q) * U32;
      ModShift(heapTop, -q);
    }
  }

  /** Shrinking the heap and then growing it by the same amount is accepted and comes back
      to the old top, for a heap that spanned at most MAX_HEAP bytes inside its bounds. */
  lemma ShrinkThenGrow(heapTop: int, heapBase: int, stackBase: int, stackTop: int, amount: int)
    requires IsU32(heapTop) && IsU32(heapBase) && IsI32(amount) && I32_MIN < amount < 0
    requires heapBase <= heapTop <= stackBase && heapTop < stackTop && heapTop - heapBase <= MAX_HEAP
    requires SbrkCheck(heapTop, heapBase, stackBase, stackTop, amount).Accept?
    ensures SbrkCheck(SbrkCheck(heapTop, heapBase, stackBase, stackTop, amount).newTop,
                      heapBase, stackBase, stackTop, -amount) == Accept(heapTop)
  {
    SbrkCheckBounds(heapTop, heapBase, stackBase, stackTop, amount);
    var t := (heapTop + amount) % U32;
    SbrkCheckBounds(t, heapBase, stackBase, stackTop, -amount);
    assert (t - amount) % U32 == heapTop by {
      var q := (heapTop + amount) / U32;
      assert t - amount == heapTop + (-q) * U32;
      ModShift(heapTop, -q);
    }
  }

  /** The page count a shrinking call passes to free_sbrk_pages: `-amount / PAGE_SIZE` in
      32-bit signed arithmetic, where negating INT32_MIN gives INT32_MIN back, then read as
      unsigned. */
  function ShrinkPages(amount: int): (n: nat)
    requires IsI32(amount) && amount < 0 && amount % PAGE_SIZE == 0
    ensures IsU32(n)
  {
    if amount == I32_MIN then U32 + I32_MIN / PAGE_SIZE else -amount / PAGE_SIZE
  }

  /** Lowering the heap top by the page count of a shrinking call lands on the top moved by
      the amount. */
  lemma ShrinkPagesTop(heapTop: int, amount: int)
    requires IsU32(heapTop) && IsI32(amount) && I32_MIN < amount < 0 && amount % PAGE_SIZE == 0
    ensures ShrinkPages(amount) * PAGE_SIZE == -amount
    ensures FreedTop(heapTop, ShrinkPages(amount)) == Wrap32(heapTop + amount)
  {
    Wrap32IsMod(heapTop + amount);
  }

  /** Raising the heap top by the page count of a growing call lands on the top moved by the
      amount. */
  lemma GrowPagesTop(heapTop: int, amount: int)
    requires IsU32(heapTop) && IsI32(amount) && 0 < amount && amount % PAGE_SIZE == 0
    ensures HeapPage(heapTop, amount / PAGE_SIZE) == Wrap32(heapTop + amount)
  {
    Wrap32IsMod(heapTop + amount);
  }

  /** What free_sbrk_pages demands when the call shrinks the heap: at most 2^20 pages, each
      from the new top up mapped to a managed frame. */
  ghost predicate ShrinkOk(pm: PhysMem, space: AddrSpace, amount: int)
    reads space
    requires space.Valid() && IsI32(amount) && IsU32(pm.userBase)
  {
    amount < 0 && amount % PAGE_SIZE == 0
    && SbrkCheck(space.heapTop, space.heapBase, space.stackBase, space.stackTop, amount).Accept? ==>
      var n := ShrinkPages(amount);
      n <= 0x10_0000
      && forall j :: 0 <= j < n ==> HeapFrame(pm, space.pagedir, FreedTop(space.heapTop, n), j) < pm.lastPage
  }

  /** sys_sbrk: runs the checks; a rejected call returns the error with retval -1 and changes
      nothing; an accepted call of 0 returns the heap top; otherwise it grows the heap by
      amount / PAGE_SIZE pages or shrinks it by -amount / PAGE_SIZE pages and returns the old
      heap top as a signed word. Both page operations report success, so a growing call that
      finds nfreepages too small reports success with the heap top unmoved. The current
      process's address space is `space` and its pid, shifted into the descriptor's owner
      field, is pb. */
  method SysSbrk(pm: PhysMem, tlb: Tlb.Tlb, space: AddrSpace, amount: int, pb: bv32)
      returns (err: Option<Errno>, retval: int)
    requires pm.Valid() && tlb.Valid() && space.Valid() && IsI32(amount) && pb & 0x3F == 0
    requires ShrinkOk(pm, space, amount)
    modifies pm`nfreepages, pm`nextFree, pm.coremap, space`pagedir, space`heapTop, tlb`entries
    ensures pm.Valid() && tlb.Valid() && space.Valid()
    ensures SbrkCheck(old(space.heapTop), space.heapBase, space.stackBase, space.stackTop, amount).Reject? ==>
      err == Some(SbrkCheck(old(space.heapTop), space.heapBase, space.stackBase, space.stackTop, amount).err)
      && retval == -1
    ensures SbrkCheck(old(space.heapTop), space.heapBase, space.stackBase, space.stackTop, amount).Accept? ==>
      err == None && retval == Signed32(old(space.heapTop))
    ensures SbrkCheck(old(space.heapTop), space.heapBase, space.stackBase, space.stackTop, amount).Reject?
            || amount == 0 ==>
      space.heapTop == old(space.heapTop) && space.pagedir == old(space.pagedir)
      && pm.coremap[..] == old(pm.coremap[..]) && pm.nfreepages == old(pm.nfreepages)
      && pm.nextFree == old(pm.nextFree) && tlb.entries == old(tlb.entries)
    ensures SbrkCheck(old(space.heapTop), space.heapBase, space.stackBase, space.stackTop, amount).Accept?
            && amount != 0 ==>
      space.heapTop == (if amount > 0 && old(pm.nfreepages) <= amount / PAGE_SIZE then old(space.heapTop)
                        else SbrkCheck(old(space.heapTop), space.heapBase, space.stackBase, space.stackTop, amount).newTop)
  {
    ghost var c := SbrkCheck(space.heapTop, space.heapBase, space.stackBase, space.stackTop, amount);
    if amount % PAGE_SIZE != 0 {
      return Some(EInval), -1;
    }
    var heapTop := space.heapTop;
    var newTop := Wrap32(heapTop + amount);
    if newTop >= space.stackTop {
      return Some(EInval), -1;
    }
    if newTop < space.heapBase {
      return Some(EInval), -1;
    }
    if newTop > space.stackBase {
      return Some(ENoMem), -1;
    }
    if amount > 0 && Wrap32(newTop - space.heapBase) > MAX_HEAP {
      return Some(ENoMem), -1;
    }
    if amount == 0 {
      return None, Signed32(heapTop);
    }
    if amount > 0 {
      GrowPagesTop(heapTop, amount);
      AllocSbrkPages(pm, tlb, space, amount / PAGE_SIZE, pb);
    } else {
      if amount != I32_MIN {
        ShrinkPagesTop(heapTop, amount);
      }
      FreeSbrkPages(pm, space, ShrinkPages(amount));
    }
    err, retval := None, Signed32(heapTop);
  }
}
