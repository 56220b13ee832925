/** Shared vocabulary: optional values, kernel error codes and 32-bit unsigned arithmetic. */
module Common {

  datatype Option<T> = None | Some(value: T)

  /** The error codes the modelled functions return (their numeric values live in headers that are
      not part of this model). SigSegv is the signal number vm_fault returns for a bad address. */
  datatype Errno = EInval | EFault | ENoMem | EPerm | EMFile | ENProc | SigSegv

  const U32: int := 0x1_0000_0000

  /** Values an unsigned 32-bit C variable (vaddr_t, paddr_t, unsigned) can hold. */
  predicate IsU32(x: int) { 0 <= x < U32 }

  /** Values within one period of the unsigned range: a u32 value plus or minus a u32 amount,
      which is every exact result the model wraps. */
  predicate InWrapRange(x: int) { -U32 <= x < 2 * U32 }

  /** Unsigned 32-bit wrap-around of an exact result, `x mod 2^32` on that range. */
  function Wrap32(x: int): (r: int)
    requires InWrapRange(x)
    ensures IsU32(r)
    ensures IsU32(x) ==> r == x
  {
    if x < 0 then x + U32 else if x >= U32 then x - U32 else x
  }

  /** Wrap32 is reduction modulo 2^32 on its range. */
  lemma Wrap32IsMod(x: int)
    requires InWrapRange(x)
    ensures Wrap32(x) == x % U32
  {
    if x < 0 {
      assert x + U32 == x % U32 by { ModOfShift(x, 1); }
    } else if x >= U32 {
      assert x - U32 == x % U32 by { ModOfShift(x, -1); }
    }
  }

  lemma ModOfShift(x: int, k: int)
    requires 0 <= x + k * U32 < U32
    ensures x % U32 == x + k * U32
  {
  }

  /** Wrapping an intermediate result does not change a later wrap: a sequence of unsigned
      increments and decrements equals one wrapped addition of their sum. */
  lemma Wrap32Add(x: int, d: int)
    requires InWrapRange(x) && InWrapRange(x + d) && InWrapRange(Wrap32(x) + d)
    ensures Wrap32(Wrap32(x) + d) == Wrap32(x + d)
  {
  }

  const PAGE_SIZE: int := 4096
  const PAGE_OFFSET_BITS: int := 12

  /** `x & PAGE_FRAME`: the page-aligned part of an address. */
  function PageFrame(x: int): (r: int)
    requires IsU32(x)
    ensures IsU32(r) && r <= x < r + PAGE_SIZE && r % PAGE_SIZE == 0
  {
    x - x % 4096
  }

  /** An unsigned 32-bit value as a machine word, bit by bit from the lowest: the C
      conversion of a vaddr_t or paddr_t to a uint32_t word. */
  function ToWord(x: int): bv32
    requires IsU32(x)
    decreases x
  {
    if x == 0 then 0 else (ToWord(x / 2) << 1) | (if x % 2 == 0 then 0 else 1)
  }

  /** Masking an already page-aligned address changes nothing. */
  lemma PageFrameIdem(x: int)
    requires IsU32(x)
    ensures PageFrame(PageFrame(x)) == PageFrame(x)
  {
  }

  /** KVADDR_TO_PADDR on MIPS: kernel-segment (kseg0) addresses start at 0x8000_0000, and
      the subtraction is unsigned. */
  function KvaddrToPaddr(a: int): (p: int)
    requires IsU32(a)
    ensures IsU32(p)
  {
    Wrap32(a - 0x8000_0000)
  }

  /** PADDR_TO_KVADDR: adds the kseg0 offset back, in unsigned arithmetic. */
  function PaddrToKvaddr(p: int): (a: int)
    requires IsU32(p)
    ensures IsU32(a)
  {
    Wrap32(p + 0x8000_0000)
  }

  /** The two translations undo each other on every 32-bit value. */
  lemma KvaddrRoundTrip(p: int)
    requires IsU32(p)
    ensures KvaddrToPaddr(PaddrToKvaddr(p)) == p
    ensures PaddrToKvaddr(KvaddrToPaddr(p)) == p
  {
  }

  /** The lowest index at or above i whose element satisfies p: the shape of every linear
      search loop that returns on its first hit. */
  function FirstWhere<T>(s: seq<T>, p: T -> bool, i: nat): Option<nat>
    decreases |s| - i
  {
    if i >= |s| then None else if p(s[i]) then Some(i) else FirstWhere(s, p, i + 1)
  }

  /** FirstWhere finds the first hit at or above i, and finds none only when there is none. */
  lemma {:induction false} FirstWhereSpec<T>(s: seq<T>, p: T -> bool, i: nat)
    ensures FirstWhere(s, p, i).Some? ==>
      var k := FirstWhere(s, p, i).value;
      i <= k < |s| && p(s[k]) && forall j :: i <= j < k ==> !p(s[j])
    ensures FirstWhere(s, p, i).None? ==> forall j :: i <= j < |s| ==> !p(s[j])
    decreases |s| - i
  {
    if i < |s| && !p(s[i]) {
      FirstWhereSpec(s, p, i + 1);
    }
  }

  /** Misses before index k + 1 can be skipped. */
  lemma {:induction false} FirstWhereSkip<T>(s: seq<T>, p: T -> bool, i: nat, k: nat)
    requires i <= k + 1 && forall m :: i <= m <= k && m < |s| ==> !p(s[m])
    ensures FirstWhere(s, p, i) == FirstWhere(s, p, k + 1)
    decreases k + 1 - i
  {
    if i <= k && i < |s| {
      FirstWhereSkip(s, p, i + 1, k);
    }
  }

  /** An index that satisfies p after only misses is the first hit. */
  lemma FirstWhereAt<T>(s: seq<T>, p: T -> bool, k: nat)
    requires k < |s| && p(s[k]) && forall m :: 0 <= m < k ==> !p(s[m])
    ensures FirstWhere(s, p, 0) == Some(k)
  {
    if k > 0 {
      FirstWhereSkip(s, p, 0, k - 1);
    }
  }

  /** FirstWhere from index j depends only on the elements from j on. */
  lemma {:induction false} FirstWhereSuffix<T>(s: seq<T>, t: seq<T>, p: T -> bool, j: nat)
    requires |s| == |t| && forall m :: j <= m < |s| ==> s[m] == t[m]
    ensures FirstWhere(s, p, j) == FirstWhere(t, p, j)
    decreases |s| - j
  {
    if j < |s| {
      FirstWhereSuffix(s, t, p, j + 1);
    }
  }
}
