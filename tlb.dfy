/** The MIPS TLB as vm_fault and vm_tlbinvalidate program it: NUM_TLB (entryhi, entrylo)
    word pairs. tlb_read and tlb_write become reads and writes of the array, and tlb_random
    writes a slot the caller chooses. */
module Tlb {
  import opened Common

  const NUM_TLB: nat := 64
  const TLBHI_VPAGE: bv32 := 0xFFFF_F000
  const TLBLO_VALID: bv32 := 0x200
  const TLBLO_DIRTY: bv32 := 0x400

  /** A slot is either invalid (TLBHI_INVALID(i), TLBLO_INVALID(): a kernel-segment page
      that no fault address of a user segment reaches) or holds an (entryhi, entrylo) pair. */
  datatype TlbEntry = Invalid | Mapping(hi: bv32, lo: bv32)

  /** The comparison vm_fault makes: the virtual page numbers agree (the ASID bits are ignored). */
  predicate SamePage(e: TlbEntry, hi: bv32) {
    e.Mapping? && e.hi & TLBHI_VPAGE == hi & TLBHI_VPAGE
  }

  function PageMatch(hi: bv32): TlbEntry -> bool {
    (e: TlbEntry) => SamePage(e, hi)
  }

  /** No two entries map the same virtual page (the hardware's requirement). */
  predicate Distinct(s: seq<TlbEntry>) {
    forall i, j :: 0 <= i < j < |s| && s[i].Mapping? ==> !SamePage(s[j], s[i].hi)
  }

  /** The TLB once vm_tlbinvalidate has run: every slot invalid. */
  function Cleared(): (s: seq<TlbEntry>)
    ensures |s| == NUM_TLB && forall i :: 0 <= i < |s| ==> s[i] == Invalid
  {
    seq(NUM_TLB, _ => Invalid)
  }

  /** The slot vm_fault's placement writes: the first entry for the same page, otherwise the
      slot tlb_random picks. */
  function InstallSlot(s: seq<TlbEntry>, hi: bv32, random: nat): nat {
    match FirstWhere(s, PageMatch(hi), 0)
    case Some(k) => k
    case None => random
  }

  /** Installing keeps the TLB free of duplicate pages, and afterwards the page is found in
      exactly the slot that was written. */
  lemma InstallKeepsDistinct(s: seq<TlbEntry>, hi: bv32, lo: bv32, random: nat)
    requires Distinct(s) && random < |s|
    ensures InstallSlot(s, hi, random) < |s|
    ensures Distinct(s[InstallSlot(s, hi, random) := Mapping(hi, lo)])
    ensures FirstWhere(s[InstallSlot(s, hi, random) := Mapping(hi, lo)], PageMatch(hi), 0)
            == Some(InstallSlot(s, hi, random))
  {
    FirstWhereSpec(s, PageMatch(hi), 0);
    var k := InstallSlot(s, hi, random);
    OnlySlotForPage(s, hi, random);
    var t := s[k := Mapping(hi, lo)];
    DistinctAfterWrite(s, k, hi, lo);
    assert PageMatch(hi)(t[k]);
    FirstWhereSpec(t, PageMatch(hi), 0);
  }

  /** Whether or not the TLB was free of duplicates, a lookup of the page after installing
      it hits the slot just written: every earlier slot holds another page. */
  lemma InstallIsFound(s: seq<TlbEntry>, hi: bv32, lo: bv32, random: nat)
    requires random < |s|
    ensures InstallSlot(s, hi, random) < |s|
    ensures FirstWhere(s[InstallSlot(s, hi, random) := Mapping(hi, lo)], PageMatch(hi), 0)
            == Some(InstallSlot(s, hi, random))
  {
    FirstWhereSpec(s, PageMatch(hi), 0);
    var k := InstallSlot(s, hi, random);
    var t := s[k := Mapping(hi, lo)];
    assert PageMatch(hi)(t[k]);
    forall m | 0 <= m < k
      ensures !PageMatch(hi)(t[m])
    {
      assert t[m] == s[m];
    }
    FirstWhereAt(t, PageMatch(hi), k);
  }

  /** Writing a page into a slot keeps the TLB free of duplicates when no other slot holds it. */
  lemma DistinctAfterWrite(s: seq<TlbEntry>, k: nat, hi: bv32, lo: bv32)
    requires Distinct(s) && k < |s|
    requires forall i :: 0 <= i < |s| && i != k ==> !SamePage(s[i], hi)
    ensures Distinct(s[k := Mapping(hi, lo)])
  {
    var t := s[k := Mapping(hi, lo)];
    forall i, j | 0 <= i < j < |t| && t[i].Mapping?
      ensures !SamePage(t[j], t[i].hi)
    {
      if j == k {
        assert !SamePage(s[i], hi);
      } else if i == k {
        assert !SamePage(s[j], hi);
      } else {
        assert !SamePage(s[j], s[i].hi);
      }
    }
  }

  /** Apart from the slot Install chooses, no slot holds the page. */
  lemma OnlySlotForPage(s: seq<TlbEntry>, hi: bv32, random: nat)
    requires Distinct(s) && random < |s|
    ensures InstallSlot(s, hi, random) < |s|
    ensures forall i :: 0 <= i < |s| && i != InstallSlot(s, hi, random) ==> !SamePage(s[i], hi)
  {
    FirstWhereSpec(s, PageMatch(hi), 0);
    var k := InstallSlot(s, hi, random);
    forall i | 0 <= i < |s| && i != k
      ensures !SamePage(s[i], hi)
    {
      if FirstWhere(s, PageMatch(hi), 0).Some? && i > k {
        assert !SamePage(s[i], s[k].hi);
      } else {
        assert !PageMatch(hi)(s[i]);
      }
    }
  }

  class Tlb {
    /** The NUM_TLB slots, a fixed-length sequence rewritten slot by slot. */
    var entries: seq<TlbEntry>

    /** The TLB as the boot path leaves it: every slot invalid. */
    constructor ()
      ensures entries == seq(NUM_TLB, _ => Invalid)
    {
      entries := seq(NUM_TLB, _ => Invalid);
    }

    ghost predicate Valid()
      reads this
    {
      |entries| == NUM_TLB
    }

    /** vm_tlbinvalidate: writes the invalid pair into every slot. */
    method Invalidate()
      requires Valid()
      modifies this`entries
      ensures Valid() && forall i :: 0 <= i < NUM_TLB ==> entries[i] == Invalid
      ensures Distinct(entries)
    {
      var i := 0;
      while i < NUM_TLB
        invariant 0 <= i <= NUM_TLB && |entries| == NUM_TLB
        invariant forall k :: 0 <= k < i ==> entries[k] == Invalid
      {
        entries := entries[i := Invalid];
        i := i + 1;
      }
    }

    /** The placement at the end of vm_fault: reads the slots in order, overwrites the first
        one holding the same virtual page, and writes slot `random` (tlb_random) when none does. */
    method Install(hi: bv32, lo: bv32, random: nat) returns (slot: nat)
      requires Valid() && random < NUM_TLB
      modifies this`entries
      ensures slot == InstallSlot(old(entries), hi, random) && slot < NUM_TLB
      ensures entries == old(entries)[slot := Mapping(hi, lo)]
      ensures FirstWhere(entries, PageMatch(hi), 0) == Some(slot)
      ensures old(Distinct(entries)) ==> Distinct(entries)
    {
      if Distinct(entries) {
        InstallKeepsDistinct(entries, hi, lo, random);
      }
      var idx := 0;
      while idx < NUM_TLB
        invariant 0 <= idx <= NUM_TLB && entries == old(entries)
        invariant FirstWhere(entries, PageMatch(hi), 0) == FirstWhere(entries, PageMatch(hi), idx)
      {
        if SamePage(entries[idx], hi) {
          InstallIsFound(entries, hi, lo, idx);
          entries := entries[idx := Mapping(hi, lo)];
          return idx;
        }
        idx := idx + 1;
      }
      InstallIsFound(entries, hi, lo, random);
      entries := entries[random := Mapping(hi, lo)];
      slot := random;
    }
  }
}
