/** The process table: one slot per pid, each empty or holding the process with that pid,
    and the pid where the next search for a free one starts. The pid bounds come from the
    kernel's limits header and are parameters here. The table lock is not modelled: each
    operation runs alone. */
module ProcTables {
  import opened Common

  /** A process, as far as the table sees it: its pid. */
  class Proc {
    var pid: int

    constructor (p: int)
      ensures pid == p
    {
      pid := p;
    }
  }

  /** The slot count proctable.h declares for proc_entries: PID_MAX. */
  function DeclaredSlots(pidMax: nat): nat {
    pidMax
  }

  /** The first index the loop `for (i = start; i < bound; i++) entries[i] = NULL;` writes at
      or past the end of an array of len slots, or None when every write is in bounds. */
  function FirstOverrun(len: nat, bound: nat, i: nat): (r: Option<nat>)
    ensures r.Some? ==> i <= r.value < bound && len <= r.value
    ensures r.None? ==> bound <= i || bound <= len
    decreases bound - i
  {
    if i >= bound then None
    else if i >= len then Some(i)
    else FirstOverrun(len, bound, i + 1)
  }

  /** The loop overruns exactly when it runs past len, and first at index max(i, len). */
  lemma {:induction false} FirstOverrunAt(len: nat, bound: nat, i: nat)
    ensures FirstOverrun(len, bound, i) == (var m := if i < len then len else i; if m < bound then Some(m) else None)
    decreases bound - i
  {
    if i < bound && i < len {
      FirstOverrunAt(len, bound, i + 1);
    }
  }

  /** proctable_bootstrap's loop runs i from 0 to PID_MAX: over the PID_MAX slots the header
      declares it writes out of bounds, first at index PID_MAX (the slot assign_pid can also
      hand out), while over PID_MAX + 1 slots every write is in bounds. */
  lemma BootstrapOverrunsDeclared(pidMax: nat)
    ensures FirstOverrun(DeclaredSlots(pidMax), pidMax + 1, 0) == Some(pidMax)
    ensures FirstOverrun(pidMax + 1, pidMax + 1, 0) == None
  {
    FirstOverrunAt(DeclaredSlots(pidMax), pidMax + 1, 0);
    FirstOverrunAt(pidMax + 1, pidMax + 1, 0);
  }

  class ProcTable {
    /** PID_MIN, PID_MAX and KERN_PID. */
    const pidMin: int
    const pidMax: int
    const kernPid: int
    /** proc_entries, with the PID_MAX + 1 slots the code indexes. */
    const entries: array<Proc?>
    /** next_pid. */
    var nextPid: int

    ghost predicate Valid()
      reads this
    {
      0 <= pidMin <= pidMax && 0 <= kernPid <= pidMax && entries.Length == pidMax + 1
      && pidMin <= nextPid <= pidMax + 1
    }

    /** The number of user pids. */
    function Span(): int {
      pidMax - pidMin + 1
    }

    /** How far pid p comes after start in assign_pid's circular search over the user pids,
        start itself being 0. */
    function Dist(start: int, p: int): int
      requires pidMin <= start <= pidMax && pidMin <= p <= pidMax
    {
      if p >= start then p - start else p - start + Span()
    }

    /** The pid d steps after start in that search. */
    function Step(start: int, d: int): int {
      if start + d <= pidMax then start + d else start + d - Span()
    }

    /** proctable_bootstrap: every slot empty and the search starting at PID_MIN. */
    constructor (pmin: int, pmax: int, kpid: int)
      requires 0 <= pmin <= pmax && 0 <= kpid <= pmax
      ensures Valid() && fresh(entries) && pidMin == pmin && pidMax == pmax && kernPid == kpid
      ensures nextPid == pidMin && forall i :: 0 <= i <= pidMax ==> entries[i] == null
    {
      pidMin := pmin;
      pidMax := pmax;
      kernPid := kpid;
      entries := new Proc?[pmax + 1];
      nextPid := pmin;
      new;
      var i := 0;
      while i < pidMax + 1
        invariant 0 <= i <= pidMax + 1
        invariant forall j :: 0 <= j < i ==> entries[j] == null
        modifies entries
      {
        entries[i] := null;
        i := i + 1;
      }
    }

    /** proctable_get_proc: the process in slot pid. */
    function GetProc(pid: int): Proc?
      reads this, entries
      requires Valid() && 0 <= pid <= pidMax
    {
      entries[pid]
    }

    /** proctable_assign_pid. When slot next_pid is empty, proc takes it. Otherwise the search
        steps on from next_pid, wrapping past PID_MAX to PID_MIN, and proc takes the first
        empty slot; when it comes back to where it began, every user pid is taken and it fails
        with ENPROC, changing nothing. On success next_pid is the pid handed out plus one, not
        wrapped: the caller must not call again with next_pid past PID_MAX, and the search
        reads slot next_pid + 1 before it wraps, so slot next_pid must be empty when next_pid
        is PID_MAX. */
    method AssignPid(proc: Proc) returns (err: Option<Errno>)
      requires Valid() && nextPid <= pidMax && (entries[nextPid] != null ==> nextPid < pidMax)
      modifies this`nextPid, entries, proc
      ensures Valid()
      ensures err == None ==>
        pidMin <= proc.pid <= pidMax && old(entries[..])[proc.pid] == null
        && entries[..] == old(entries[..])[proc.pid := proc] && GetProc(proc.pid) == proc
        && nextPid == proc.pid + 1
        && forall q :: pidMin <= q <= pidMax && Dist(old(nextPid), q) < Dist(old(nextPid), proc.pid) ==>
             old(entries[..])[q] != null
      ensures err != None ==>
        err == Some(ENProc) && entries[..] == old(entries[..]) && nextPid == old(nextPid)
        && proc.pid == old(proc.pid) && forall q :: pidMin <= q <= pidMax ==> entries[q] != null
    {
      if entries[nextPid] == null {
        entries[nextPid] := proc;
        proc.pid := nextPid;
        nextPid := nextPid + 1;
        return None;
      }
      var start := nextPid;
      nextPid := nextPid + 1;
      ghost var d := 1;
      while nextPid != start
        invariant pidMin <= nextPid <= pidMax && 1 <= d <= Span() && nextPid == Step(start, d)
        invariant nextPid == start <==> d == Span()
        invariant entries[..] == old(entries[..]) && proc.pid == old(proc.pid)
        invariant forall q :: pidMin <= q <= pidMax && Dist(start, q) < d ==> entries[q] != null
        decreases Span() - d
      {
        if entries[nextPid] == null {
          assert Dist(start, nextPid) == d;
          entries[nextPid] := proc;
          proc.pid := nextPid;
          nextPid := nextPid + 1;
          return None;
        }
        nextPid := nextPid + 1;
        if nextPid > pidMax {
          nextPid := pidMin;
        }
        d := d + 1;
      }
      err := Some(ENProc);
    }

    /** proctable_assign_kern_pid: the kernel process takes slot KERN_PID, whatever was there. */
    method AssignKernPid(proc: Proc)
      requires Valid()
      modifies entries, proc
      ensures entries[..] == old(entries[..])[kernPid := proc] && proc.pid == kernPid
      ensures GetProc(kernPid) == proc
    {
      entries[kernPid] := proc;
      proc.pid := kernPid;
    }

    /** proctable_unassign_pid: empties the slot of proc's pid, whichever process it holds,
        and sets the pid to -1. The pid must index the table. */
    method UnassignPid(proc: Proc)
      requires Valid() && 0 <= proc.pid <= pidMax
      modifies entries, proc
      ensures entries[..] == old(entries[..])[old(proc.pid) := null] && proc.pid == -1
      ensures GetProc(old(proc.pid)) == null
    {
      entries[proc.pid] := null;
      proc.pid := -1;
    }
  }
}
