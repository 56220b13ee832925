/** The per-process file table: OPEN_MAX descriptor slots, each empty or holding a shared
    open-file handle, the number of files opened and the slot where the next descriptor
    search starts. Handles carry a reference count: a handle shared by several slots or
    tables is destroyed when its last reference goes. Locks are not modelled, and vnodes are
    opaque numbers. */
module FileTables {
  import opened Common

  /** The per-process open-file limit (OPEN_MAX in the kernel's limits header). */
  const OPEN_MAX: int := 128
  /** The open flags init_stdio uses. */
  const O_RDONLY: int := 0
  const O_WRONLY: int := 1
  /** Descriptors 0, 1 and 2 are the standard streams; the search wraps to 3. */
  const FIRST_FREE_FID: int := 3

  /** An open-file handle: the vnode, the open flags, the offset and the number of references.
      `destroyed` records ft_file_destroy, which closes the vnode and frees the handle. */
  class FtFile {
    var vn: int
    var flags: int
    var offset: int
    var refcount: int
    var destroyed: bool

    /** ft_file_create after a successful allocation: offset 0, the given flags, one reference. */
    constructor (v: int, inFlags: int)
      ensures vn == v && flags == inFlags && offset == 0 && refcount == 1 && !destroyed
    {
      vn := v;
      offset := 0;
      flags := inFlags;
      refcount := 1;
      destroyed := false;
    }
  }

  /** ft_file_create: a fresh handle, or null when the handle or its lock cannot be allocated
      (allocOk false). */
  method FtFileCreate(v: int, inFlags: int, allocOk: bool) returns (f: FtFile?)
    ensures allocOk <==> f != null
    ensures f != null ==> fresh(f) && f.vn == v && f.flags == inFlags && f.offset == 0
                          && f.refcount == 1 && !f.destroyed
  {
    if !allocOk {
      return null;
    }
    f := new FtFile(v, inFlags);
  }

  /** decre_ft_file: drops one reference and destroys the handle exactly when none is left.
      A destroyed handle is freed memory, so the caller must not pass one. */
  method DecreFtFile(f: FtFile)
    requires !f.destroyed
    modifies f
    ensures f.refcount == old(f.refcount) - 1
    ensures f.destroyed <==> f.refcount == 0
    ensures f.vn == old(f.vn) && f.flags == old(f.flags) && f.offset == old(f.offset)
  {
    f.refcount := f.refcount - 1;
    if f.refcount == 0 {
      f.destroyed := true;
    }
  }

  /** The slot after fid in add_ft_file's search: the next one, wrapping past the last slot to 3. */
  function NextFid(fid: int): (n: int)
    ensures 0 <= fid < OPEN_MAX ==> 0 < n < OPEN_MAX && (n == fid + 1 || n == FIRST_FREE_FID)
  {
    if fid + 1 >= OPEN_MAX then FIRST_FREE_FID else fid + 1
  }

  /** Where add_ft_file's search from fid ends with k probes left: at the first empty slot it
      meets, or wherever it stands when the probes run out. The search only ever moves to
      slots above fid or to slots from 3 up. */
  function Probe(es: seq<FtFile?>, fid: int, k: nat): (r: int)
    requires |es| == OPEN_MAX && 0 <= fid < OPEN_MAX
    ensures 0 <= r < OPEN_MAX && (r >= fid || r >= FIRST_FREE_FID)
    decreases k
  {
    if k == 0 || es[fid] == null then fid else Probe(es, NextFid(fid), k - 1)
  }

  /** Slot s lies on the search path from fid: above it, or among the slots the wrap reaches. */
  predicate OnPath(fid: int, s: int) {
    0 <= s < OPEN_MAX && (s >= fid || s >= FIRST_FREE_FID)
  }

  /** How many steps the search from fid takes to reach slot s on its path. */
  function Dist(fid: int, s: int): nat
    requires 0 <= fid < OPEN_MAX && OnPath(fid, s)
  {
    if s >= fid then s - fid else (OPEN_MAX - fid) + (s - FIRST_FREE_FID)
  }

  /** One step along the path shortens the distance to every other slot on it by one. */
  lemma DistStep(fid: int, s: int)
    requires 0 <= fid < OPEN_MAX && OnPath(fid, s) && s != fid
    ensures OnPath(NextFid(fid), s) && Dist(fid, s) == Dist(NextFid(fid), s) + 1
  {
  }

  /** With enough probes, the search ends on an empty slot whenever one lies on its path. */
  lemma {:induction false} ProbeReachesEmpty(es: seq<FtFile?>, fid: int, k: nat, s: int)
    requires |es| == OPEN_MAX && 0 <= fid < OPEN_MAX && OnPath(fid, s) && es[s] == null
    requires Dist(fid, s) < k
    ensures es[Probe(es, fid, k)] == null
    decreases k
  {
    if es[fid] != null {
      DistStep(fid, s);
      ProbeReachesEmpty(es, NextFid(fid), k - 1, s);
    }
  }

  /** The search is first-fit: when it ends on an empty slot, every slot it passed on the way
      is occupied. */
  lemma {:induction false} ProbeFirstFit(es: seq<FtFile?>, fid: int, k: nat, s: int)
    requires |es| == OPEN_MAX && 0 <= fid < OPEN_MAX && es[Probe(es, fid, k)] == null
    requires OnPath(fid, s) && Dist(fid, s) < Dist(fid, Probe(es, fid, k))
    ensures es[s] != null
    decreases k
  {
    if k != 0 && es[fid] != null && s != fid {
      var r := Probe(es, NextFid(fid), k - 1);
      DistStep(fid, s);
      DistStep(fid, r);
      ProbeFirstFit(es, NextFid(fid), k - 1, s);
    }
  }

  /** The search never reaches slots 0-2 from slot 3 or above: when every slot from 3 up is
      occupied it ends on an occupied slot, which add_ft_file then overwrites, even if one of
      the standard slots is empty and num_opened is below OPEN_MAX. */
  lemma {:induction false} ProbeMissesLowSlots(es: seq<FtFile?>, fid: int, k: nat)
    requires |es| == OPEN_MAX && FIRST_FREE_FID <= fid < OPEN_MAX
    requires forall s :: FIRST_FREE_FID <= s < OPEN_MAX ==> es[s] != null
    ensures es[Probe(es, fid, k)] != null
    decreases k
  {
    if k != 0 {
      ProbeMissesLowSlots(es, NextFid(fid), k - 1);
    }
  }

  /** The file table of a process. */
  class FileTable {
    /** file_entries: OPEN_MAX slots, null when empty. */
    const entries: array<FtFile?>
    /** num_opened. */
    var numOpened: int
    /** next_fid: where the next descriptor search starts. */
    var nextFid: int

    ghost predicate Valid()
      reads this
    {
      entries.Length == OPEN_MAX && 0 <= nextFid < OPEN_MAX
    }

    /** filetable_create after a successful allocation: every slot empty, nothing opened, the
        search starting at slot 0. */
    constructor ()
      ensures Valid() && fresh(entries) && numOpened == 0 && nextFid == 0
      ensures forall i :: 0 <= i < OPEN_MAX ==> entries[i] == null
    {
      entries := new FtFile?[OPEN_MAX];
      numOpened := 0;
      nextFid := 0;
      new;
      var i := 0;
      while i < OPEN_MAX
        invariant 0 <= i <= OPEN_MAX
        invariant forall j :: 0 <= j < i ==> entries[j] == null
        modifies entries
      {
        entries[i] := null;
        i := i + 1;
      }
    }

    /** add_ft_file: EMFILE with nothing changed when num_opened has reached OPEN_MAX (fid is
        then not written, -1 here). Otherwise the search from next_fid picks the slot, f is
        stored there and its index returned, num_opened goes up by one and the next search
        starts after the slot. */
    method AddFtFile(f: FtFile?) returns (err: Option<Errno>, fid: int)
      requires Valid()
      modifies this, entries
      ensures Valid()
      ensures old(numOpened) >= OPEN_MAX ==>
        err == Some(EMFile) && fid == -1 && entries[..] == old(entries[..])
        && numOpened == old(numOpened) && nextFid == old(nextFid)
      ensures old(numOpened) < OPEN_MAX ==>
        err == None && fid == Probe(old(entries[..]), old(nextFid), OPEN_MAX)
        && entries[..] == old(entries[..])[fid := f]
        && numOpened == old(numOpened) + 1 && nextFid == NextFid(fid)
    {
      if numOpened >= OPEN_MAX {
        return Some(EMFile), -1;
      }
      SearchFree();
      entries[nextFid] := f;
      fid := nextFid;
      numOpened := numOpened + 1;
      nextFid := nextFid + 1;
      if nextFid >= OPEN_MAX {
        nextFid := FIRST_FREE_FID;
      }
      err := None;
    }

    /** The search of add_ft_file: when slot next_fid is taken, step along the slots (wrapping
        to 3) at most OPEN_MAX times, stopping at the first empty one. */
    method SearchFree()
      requires Valid()
      modifies this`nextFid
      ensures Valid() && nextFid == Probe(entries[..], old(nextFid), OPEN_MAX)
    {
      ghost var es := entries[..];
      ghost var r := Probe(es, nextFid, OPEN_MAX);
      if entries[nextFid] != null {
        var i := 0;
        while i < OPEN_MAX
          invariant 0 <= i <= OPEN_MAX && 0 <= nextFid < OPEN_MAX
          invariant Probe(es, nextFid, OPEN_MAX - i) == r
        {
          if entries[nextFid] == null {
            break;
          }
          ghost var fid := nextFid;
          nextFid := nextFid + 1;
          if nextFid >= OPEN_MAX {
            nextFid := FIRST_FREE_FID;
          }
          assert nextFid == NextFid(fid) && es[fid] != null;
          i := i + 1;
        }
      }
    }

    /** init_stdio: slot 0 gets a read-only handle on the first console vnode, slots 1 and 2
        each a write-only handle on the second, and num_opened and next_fid become 3. A handle
        whose allocation fails (ok0, ok1, ok2 false) leaves its slot null. The two write-only
        handles are distinct but share one vnode opened once, so destroying both closes that
        vnode twice. */
    method InitStdio(con0: int, con1: int, ok0: bool, ok1: bool, ok2: bool)
      requires Valid()
      modifies this, entries
      ensures Valid() && numOpened == 3 && nextFid == 3
      ensures StdHandle(entries[0], ok0, con0, O_RDONLY)
      ensures StdHandle(entries[1], ok1, con1, O_WRONLY) && StdHandle(entries[2], ok2, con1, O_WRONLY)
      ensures entries[1] != null && entries[2] != null ==> entries[1] != entries[2]
      ensures entries[0] != null ==> fresh(entries[0])
      ensures entries[1] != null ==> fresh(entries[1])
      ensures entries[2] != null ==> fresh(entries[2])
      ensures forall i :: FIRST_FREE_FID <= i < OPEN_MAX ==> entries[i] == old(entries[i])
    {
      numOpened := 3;
      nextFid := 3;
      var f0 := FtFileCreate(con0, O_RDONLY, ok0);
      entries[0] := f0;
      var f1 := FtFileCreate(con1, O_WRONLY, ok1);
      entries[1] := f1;
      var f2 := FtFileCreate(con1, O_WRONLY, ok2);
      entries[2] := f2;
    }
  }

  /** A standard-stream slot after init_stdio: null exactly when its allocation failed,
      otherwise a new handle on vnode v with the given flags, offset 0 and one reference. */
  ghost predicate StdHandle(f: FtFile?, ok: bool, v: int, fl: int)
    reads f
  {
    (ok <==> f != null)
    && (f != null ==> f.vn == v && f.flags == fl && f.offset == 0 && f.refcount == 1 && !f.destroyed)
  }

  /** filetable_create: a new empty table, or null when the table or its lock cannot be
      allocated (allocOk false). */
  method FiletableCreate(allocOk: bool) returns (ft: FileTable?)
    ensures allocOk <==> ft != null
    ensures ft != null ==>
      fresh(ft) && fresh(ft.entries) && ft.Valid() && ft.numOpened == 0 && ft.nextFid == 0
      && forall i :: 0 <= i < OPEN_MAX ==> ft.entries[i] == null
  {
    if !allocOk {
      return null;
    }
    ft := new FileTable();
  }

  /** Number of slots of s holding f. */
  function Count(s: seq<FtFile?>, f: FtFile): (n: nat)
    ensures n <= |s|
  {
    if s == [] then 0 else Count(s[..|s| - 1], f) + (if s[|s| - 1] == f then 1 else 0)
  }

  /** filetable_dup: the new table takes the old one's num_opened and next_fid and shares every
      handle of the old table at the same index, each handle's reference count rising once per
      slot that holds it; slots empty in the old table keep what the new table had. */
  method FiletableDup(oldFt: FileTable, newFt: FileTable)
    requires oldFt.Valid() && newFt.Valid() && oldFt.entries != newFt.entries
    modifies newFt`numOpened, newFt`nextFid, newFt.entries
    modifies set i | 0 <= i < oldFt.entries.Length && oldFt.entries[i] != null :: oldFt.entries[i]
    ensures newFt.Valid() && newFt.numOpened == oldFt.numOpened && newFt.nextFid == oldFt.nextFid
    ensures forall i :: 0 <= i < OPEN_MAX ==>
      newFt.entries[i] == if oldFt.entries[i] != null then oldFt.entries[i] else old(newFt.entries[i])
    ensures forall i :: 0 <= i < OPEN_MAX && oldFt.entries[i] != null ==>
      oldFt.entries[i].refcount == old(oldFt.entries[i].refcount) + Count(oldFt.entries[..], oldFt.entries[i])
      && Unshared(oldFt.entries[i])
  {
    newFt.numOpened := oldFt.numOpened;
    newFt.nextFid := oldFt.nextFid;
    ghost var es := oldFt.entries[..];
    ghost var ns := newFt.entries[..];
    var i := 0;
    while i < OPEN_MAX
      invariant 0 <= i <= OPEN_MAX && oldFt.entries[..] == es
      invariant newFt.Valid() && newFt.numOpened == oldFt.numOpened && newFt.nextFid == oldFt.nextFid
      invariant forall j :: 0 <= j < i ==> newFt.entries[j] == if es[j] != null then es[j] else ns[j]
      invariant newFt.entries[i..] == ns[i..]
      invariant forall j :: 0 <= j < OPEN_MAX && es[j] != null ==>
        es[j].refcount == old(es[j].refcount) + Count(es[..i], es[j]) && Unshared(es[j])
    {
      DupSlot(oldFt, newFt, i);
      assert es[..i + 1][..i] == es[..i];
      i := i + 1;
    }
    assert es[..OPEN_MAX] == es;
    assert forall j :: 0 <= j < OPEN_MAX ==> newFt.entries[j] == if es[j] != null then es[j] else ns[j];
  }

  /** Slot i of filetable_dup: a handle in the old table's slot is shared into the new table's
      slot and gains a reference. */
  method DupSlot(oldFt: FileTable, newFt: FileTable, i: int)
    requires oldFt.Valid() && newFt.Valid() && oldFt.entries != newFt.entries && 0 <= i < OPEN_MAX
    modifies newFt.entries, oldFt.entries[i]
    ensures newFt.entries[..] == old(newFt.entries[..])[i := if oldFt.entries[i] != null then oldFt.entries[i] else old(newFt.entries[i])]
    ensures oldFt.entries[i] != null ==>
      oldFt.entries[i].refcount == old(oldFt.entries[i].refcount) + 1 && Unshared(oldFt.entries[i])
  {
    if oldFt.entries[i] != null {
      var f := oldFt.entries[i];
      newFt.entries[i] := f;
      f.refcount := f.refcount + 1;
    }
  }

  /** A prefix holds f at most as often as the whole sequence does. */
  lemma {:induction false} CountPrefix(s: seq<FtFile?>, j: nat, f: FtFile)
    requires j <= |s|
    ensures Count(s[..j], f) <= Count(s, f)
    decreases |s|
  {
    if j < |s| {
      assert s[..|s| - 1][..j] == s[..j];
      CountPrefix(s[..|s| - 1], j, f);
    } else {
      assert s[..j] == s;
    }
  }

  /** Counting one more slot of s adds one when that slot holds f. */
  lemma CountSnoc(s: seq<FtFile?>, i: nat, f: FtFile)
    requires i < |s|
    ensures Count(s[..i + 1], f) == Count(s[..i], f) + (if s[i] == f then 1 else 0)
  {
    assert s[..i + 1][..i] == s[..i];
  }

  /** filetable_destroy: decre_ft_file on every non-empty slot in turn, so a handle held by k
      slots loses k references and is destroyed exactly when none is left; the table itself
      goes back to kfree, which is not modelled. decre_ft_file must never see a destroyed
      handle, so each handle's count must cover the slots of this table that hold it. */
  method FiletableDestroy(ft: FileTable)
    requires ft.Valid()
    requires forall i :: 0 <= i < OPEN_MAX && ft.entries[i] != null ==>
      !ft.entries[i].destroyed && ft.entries[i].refcount >= Count(ft.entries[..], ft.entries[i])
    modifies set i | 0 <= i < ft.entries.Length && ft.entries[i] != null :: ft.entries[i]
    ensures forall i :: 0 <= i < OPEN_MAX && ft.entries[i] != null ==>
      ft.entries[i].refcount == old(ft.entries[i].refcount) - Count(ft.entries[..], ft.entries[i])
      && (ft.entries[i].destroyed <==> ft.entries[i].refcount == 0)
      && ft.entries[i].vn == old(ft.entries[i].vn) && ft.entries[i].flags == old(ft.entries[i].flags)
      && ft.entries[i].offset == old(ft.entries[i].offset)
  {
    ghost var es := ft.entries[..];
    forall j | 0 <= j < OPEN_MAX && es[j] != null
      ensures Count(es, es[j]) >= 1
    {
      CountPrefix(es, j + 1, es[j]);
      CountSnoc(es, j, es[j]);
    }
    var i := 0;
    while i < OPEN_MAX
      invariant 0 <= i <= OPEN_MAX && ft.entries[..] == es
      invariant forall j :: 0 <= j < OPEN_MAX && es[j] != null ==>
        es[j].refcount == old(es[j].refcount) - Count(es[..i], es[j])
      invariant forall j :: 0 <= j < OPEN_MAX && es[j] != null ==>
        (es[j].destroyed <==> es[j].refcount == 0)
      invariant forall j :: 0 <= j < OPEN_MAX && es[j] != null ==>
        es[j].vn == old(es[j].vn) && es[j].flags == old(es[j].flags) && es[j].offset == old(es[j].offset)
    {
      forall j | 0 <= j < OPEN_MAX && es[j] != null
        ensures Count(es[..i + 1], es[j]) == Count(es[..i], es[j]) + (if es[i] == es[j] then 1 else 0)
      {
        CountSnoc(es, i, es[j]);
      }
      if ft.entries[i] != null {
        CountPrefix(es, i + 1, es[i]);
        DecreFtFile(ft.entries[i]);
      }
      i := i + 1;
    }
    assert es[..OPEN_MAX] == es;
  }

  /** Every field of handle f other than the reference count is as it was. */
  twostate predicate Unshared(f: FtFile)
    reads f
  {
    f.vn == old(f.vn) && f.flags == old(f.flags) && f.offset == old(f.offset) && f.destroyed == old(f.destroyed)
  }
}
