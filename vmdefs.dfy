/** The constants and coremap-word macros of the VM header: sizing, the bit layout of a frame
    descriptor word, the IS_PPAGE_* predicates and the fault-type codes. */
module VmDefs {
  import opened Common

  // Sizing
  const RAM_MAX: int := 16 * 1024 * 1024
  const MAX_HEAP: int := 3 * 1024 * 1024
  const SWAP_SIZE: int := 5 * 1024 * 1024
  const NUM_PPAGES: int := RAM_MAX / PAGE_SIZE
  const NUM_SW_PAGES: int := SWAP_SIZE / PAGE_SIZE
  const MIN_FREE_PAGES: int := 8
  const PPAGE_ENTRIES: int := PAGE_SIZE / 8
  const NUM_COREMAP_PAGES: int := NUM_PPAGES / PPAGE_ENTRIES
  const VPAGE_ENTRIES: int := PAGE_SIZE / 4

  // Frame descriptor word layout
  const PP_PID_MASK: bv32 := 0xFC0
  const PP_USE_MASK: bv32 := 0x020
  const PP_ALLOC_END_MASK: bv32 := 0x010
  const PP_STATE_MASK: bv32 := 0x00C
  const PP_PERMISSION_MASK: bv32 := 0x003

  const PP_USE: bv32 := 0x020
  const PP_ALLOC_END: bv32 := 0x010

  const PP_FREE: bv32 := 0x000
  const PP_DIRTY: bv32 := 0x004
  const PP_CLEAN: bv32 := 0x008
  const PP_FIXED: bv32 := 0x00C

  const PP_READABLE: bv32 := 0x004
  const PP_WRITEABLE: bv32 := 0x080
  const PP_EXECUTABLE: bv32 := 0x100

  // Fault-type arguments to vm_fault
  const VM_FAULT_READ: int := 0
  const VM_FAULT_WRITE: int := 1
  const VM_FAULT_READONLY: int := 2

  predicate IsPpageFree(w: bv32) { w & PP_STATE_MASK == PP_FREE }
  predicate IsPpageInRam(w: bv32) { w & PP_STATE_MASK == PP_DIRTY }
  predicate IsPpageInSwap(w: bv32) { w & PP_STATE_MASK == PP_CLEAN }
  predicate IsPpageFixed(w: bv32) { w & PP_STATE_MASK == PP_FIXED }
  predicate IsPpageUse(w: bv32) { w & PP_USE != 0 }
  predicate IsPpageAllocEnd(w: bv32) { w & PP_ALLOC_END_MASK != 0 }

  /** CLEAR_PPAGE_USE: computes the cleared value; the macro never stores it back. */
  function ClearPpageUse(w: bv32): (r: bv32)
    ensures !IsPpageUse(r)
    ensures r | PP_USE == w | PP_USE
  {
    w & !PP_USE
  }

  /** A process id the kernel can shift into a descriptor: `pid <<= 6` on a 32-bit signed
      pid_t is defined only while the result stays representable. */
  predicate PidOk(pid: int) { 0 <= pid < 0x200_0000 }

  /** `pid << 6`, the owner field as it is ORed into a descriptor word. */
  function PidBits(pid: int): (b: bv32)
    requires PidOk(pid)
    ensures b & 0x3F == 0
  {
    (pid as bv32) << 6
  }

  /** The four values of the two-bit state field. */
  datatype FrameState = Free | Dirty | Clean | Fixed

  /** A frame descriptor word split into its fields; `upper` holds bits 12-31, where the
      fault handler and heap growth OR in the page-aligned virtual address. */
  datatype FrameDesc = FrameDesc(upper: bv32, owner: bv32, use: bool, allocEnd: bool,
                                 state: FrameState, perm: bv32)

  predicate WellFormed(d: FrameDesc) {
    d.upper & 0xFFF == 0 && d.owner < 64 && d.perm < 4
  }

  function StateBits(s: FrameState): bv32 {
    match s
    case Free => PP_FREE
    case Dirty => PP_DIRTY
    case Clean => PP_CLEAN
    case Fixed => PP_FIXED
  }

  function Decode(w: bv32): (d: FrameDesc)
    ensures WellFormed(d)
    ensures d.state == Free <==> IsPpageFree(w)
    ensures d.state == Dirty <==> IsPpageInRam(w)
    ensures d.state == Clean <==> IsPpageInSwap(w)
    ensures d.state == Fixed <==> IsPpageFixed(w)
    ensures d.use <==> IsPpageUse(w)
    ensures d.allocEnd <==> IsPpageAllocEnd(w)
  {
    var s := w & PP_STATE_MASK;
    FrameDesc(w & 0xFFFF_F000, (w & PP_PID_MASK) >> 6, w & PP_USE_MASK != 0,
              w & PP_ALLOC_END_MASK != 0,
              if s == PP_FREE then Free else if s == PP_DIRTY then Dirty
              else if s == PP_CLEAN then Clean else Fixed,
              w & PP_PERMISSION_MASK)
  }

  function Encode(d: FrameDesc): bv32 {
    d.upper | (d.owner << 6) | (if d.use then PP_USE else 0)
      | (if d.allocEnd then PP_ALLOC_END else 0) | StateBits(d.state) | d.perm
  }

  /** Every word is the encoding of its decoding: the fields cover all 32 bits. */
  lemma EncodeDecode(w: bv32)
    ensures Encode(Decode(w)) == w
  {
    var d := Decode(w);
    assert StateBits(d.state) == w & PP_STATE_MASK;
  }

  /** A well-formed descriptor survives encoding. */
  lemma DecodeEncode(d: FrameDesc)
    requires WellFormed(d)
    ensures Decode(Encode(d)) == d
  {
    EncodeUpper(d);
    EncodeOwner(d);
    EncodePerm(d);
    EncodeUse(d);
    EncodeAllocEnd(d);
    EncodeState(d);
  }

  // Each field of a well-formed descriptor lands in its own bits of the encoded word.

  lemma EncodeUpper(d: FrameDesc)
    requires WellFormed(d)
    ensures Encode(d) & 0xFFFF_F000 == d.upper
  {
  }

  lemma EncodeOwner(d: FrameDesc)
    requires WellFormed(d)
    ensures (Encode(d) & PP_PID_MASK) >> 6 == d.owner
  {
  }

  lemma EncodePerm(d: FrameDesc)
    requires WellFormed(d)
    ensures Encode(d) & PP_PERMISSION_MASK == d.perm
  {
  }

  lemma EncodeUse(d: FrameDesc)
    requires WellFormed(d)
    ensures Encode(d) & PP_USE_MASK != 0 <==> d.use
  {
  }

  lemma EncodeAllocEnd(d: FrameDesc)
    requires WellFormed(d)
    ensures Encode(d) & PP_ALLOC_END_MASK != 0 <==> d.allocEnd
  {
  }

  lemma EncodeState(d: FrameDesc)
    requires WellFormed(d)
    ensures Encode(d) & PP_STATE_MASK == StateBits(d.state)
  {
  }

  /** The owner field round-trips exactly for the pids that fit its six bits. */
  lemma PidFieldRoundTrip(pid: bv32)
    ensures ((pid << 6) & PP_PID_MASK) >> 6 == pid <==> pid < 64
  {
  }

  /** The state field takes exactly one of its four values. */
  lemma ExactlyOneState(w: bv32)
    ensures IsPpageFree(w) || IsPpageInRam(w) || IsPpageInSwap(w) || IsPpageFixed(w)
    ensures !(IsPpageFree(w) && IsPpageInRam(w)) && !(IsPpageFree(w) && IsPpageInSwap(w))
    ensures !(IsPpageFree(w) && IsPpageFixed(w)) && !(IsPpageInRam(w) && IsPpageInSwap(w))
    ensures !(IsPpageInRam(w) && IsPpageFixed(w)) && !(IsPpageInSwap(w) && IsPpageFixed(w))
  {
  }

  /** IS_PPAGE_ALLOC_END reads bit 4 alone: setting or clearing any other bit leaves it alone. */
  lemma AllocEndIsBitFour(w: bv32, other: bv32)
    requires other & PP_ALLOC_END == 0
    ensures IsPpageAllocEnd(w | other) == IsPpageAllocEnd(w)
    ensures IsPpageAllocEnd(w & !other) == IsPpageAllocEnd(w)
    ensures IsPpageAllocEnd(w) <==> w & 0x10 == 0x10
  {
  }

  /** The permission flags are not independent of the other fields: PP_READABLE is the
      PP_DIRTY state value and PP_WRITEABLE is bit 1 of the owner field. */
  lemma PermissionFlagsOverlap()
    ensures IsPpageInRam(PP_READABLE) && Decode(PP_READABLE).state == Dirty
    ensures Decode(PP_WRITEABLE).owner == 2 && PP_WRITEABLE & PP_PID_MASK != 0
    ensures Decode(PP_EXECUTABLE).owner == 4
  {
  }

  /** The sizing constants as the header derives them. */
  lemma Sizing()
    ensures NUM_PPAGES == 4096 && NUM_SW_PAGES == 1280 && NUM_COREMAP_PAGES == 8
    ensures PPAGE_ENTRIES == 512 && VPAGE_ENTRIES == 1024 && MAX_HEAP == 0x30_0000
    ensures NUM_SW_PAGES * PAGE_SIZE == SWAP_SIZE
  {
  }
}
