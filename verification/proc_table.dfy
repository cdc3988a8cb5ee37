/**
 * The process lifecycle of os161-1.99/kern/syscall/proc_syscalls.c (the
 * OPT_A2 branches): fork, _exit, waitpid and getpid as atomic transitions
 * over a pid-indexed table of process records.
 *
 * The model takes one atomic step per system call, one call at a time; the
 * source's locks do not give all of that atomicity (see the README). A
 * parent that would sleep on its child's condition variable gets the
 * `Blocked` outcome, and `Collect` is the re-check it makes when woken.
 *
 * Helpers whose code is not part of this model are given assumed
 * effects: `add_child_proc` appends to the children array, `remove_child`
 * deletes one index of it, and `proc_cleanup` removes the record from the
 * table.
 */
module ProcTable {
  import opened Wrappers

  type Pid = int

  /** The bound of the fork check. */
  const PROC_MAX: int := 64

  /** Error numbers the calls return. */
  datatype Errno = EINVAL | ESRCH | ECHILD | EMPROC | ENOMEM

  /** One process record: its pid, its parent (None once orphaned or for a
      process nobody forked), its children by pid, the zombie flag and the
      stored exit code. */
  datatype Proc = Proc(pid: Pid, parent: Option<Pid>, children: seq<Pid>, isZombie: bool, exitcode: int)

  /** The table of live and zombie records, the number of successful fork
      admissions `proc_count`, and the next pid to hand out `pid_counter`. */
  datatype Table = Table(procs: map<Pid, Proc>, procCount: int, pidCounter: int)

  /** Every call reports the table after the step, so that "nothing changed"
      is a statement about the outcome. */
  datatype ForkOutcome = Forked(table: Table, child: Pid) | ForkFailed(table: Table, err: Errno)

  datatype WaitOutcome =
    | WaitFailed(table: Table, err: Errno)
    | Blocked(table: Table)
    | Reaped(table: Table, pid: Pid, exitcode: int)

  predicate NoDup(s: seq<Pid>) {
    forall i, j :: 0 <= i < j < |s| ==> s[i] != s[j]
  }

  /** Every child listed by a record has a record of its own. */
  predicate ChildrenRecorded(procs: map<Pid, Proc>, kids: seq<Pid>) {
    forall i :: 0 <= i < |kids| ==> kids[i] in procs
  }

  /** The invariant the four calls maintain: records are keyed by their pid
      and all pids lie below `pid_counter`; nobody is its own parent; every
      listed child exists, points back at the parent listing it and is listed
      once; and the fork bound keeps `proc_count` within PROC_MAX + 1. */
  ghost predicate Wf(t: Table) {
    && CountBounded(t)
    && KeyedBelowCounter(t)
    && ChildrenLinked(t)
    && ChildrenDistinct(t)
  }

  ghost predicate CountBounded(t: Table) {
    0 <= t.procCount <= PROC_MAX + 1
  }

  ghost predicate KeyedBelowCounter(t: Table) {
    forall p :: p in t.procs ==> t.procs[p].pid == p && p < t.pidCounter && t.procs[p].parent != Some(p)
  }

  ghost predicate ChildrenLinked(t: Table) {
    forall p, c :: p in t.procs && c in t.procs[p].children ==> c in t.procs && t.procs[c].parent == Some(p)
  }

  ghost predicate ChildrenDistinct(t: Table) {
    forall p :: p in t.procs ==> NoDup(t.procs[p].children)
  }

  /** The assumed effect of `remove_child(p, i)`: drop index i of the array. */
  function RemoveAt(s: seq<Pid>, i: int): (r: seq<Pid>)
    requires 0 <= i < |s|
    ensures |r| == |s| - 1
    ensures forall x :: x in r ==> x in s
    ensures forall x :: x in s && x != s[i] ==> x in r
    ensures NoDup(s) ==> NoDup(r) && s[i] !in r
  {
    var r := s[..i] + s[i + 1..];
    assert forall j :: 0 <= j < |r| ==> r[j] == (if j < i then s[j] else s[j + 1]);
    assert forall x :: x in s && x != s[i] ==> x in r by {
      forall x | x in s && x != s[i]
        ensures x in r
      {
        var j :| 0 <= j < |s| && s[j] == x;
        if j < i { assert r[j] == x; } else { assert r[j - 1] == x; }
      }
    }
    r
  }

  /** The search loop of `sys_waitpid`: the first index from `from` on whose
      child record carries `pid`. */
  function FindChild(procs: map<Pid, Proc>, kids: seq<Pid>, pid: Pid, from: int): (r: Option<int>)
    requires 0 <= from <= |kids|
    requires ChildrenRecorded(procs, kids)
    ensures r.None? <==> forall i :: from <= i < |kids| ==> procs[kids[i]].pid != pid
    ensures r.Some? ==> && from <= r.value < |kids|
                        && procs[kids[r.value]].pid == pid
                        && forall j :: from <= j < r.value ==> procs[kids[j]].pid != pid
    decreases |kids| - from
  {
    if from == |kids| then None
    else if procs[kids[from]].pid == pid then Some(from)
    else FindChild(procs, kids, pid, from + 1)
  }

  /** `sys_getpid`: the caller's own pid. */
  function GetPid(t: Table, caller: Pid): (r: Pid)
    requires caller in t.procs
    ensures Wf(t) ==> r == caller
  {
    t.procs[caller].pid
  }

  /** `sys_fork`. The two foreign steps that can fail after the bound check are
      parameters: `created` is false when `proc_create_runprogram` returns
      NULL, `copied` is false when `as_copy` fails. Both failures leave
      `proc_count` incremented and the table otherwise as it was. */
  function Fork(t: Table, caller: Pid, created: bool, copied: bool): (r: ForkOutcome)
    requires caller in t.procs
    ensures r == ForkFailed(t, EMPROC) <==> t.procCount > PROC_MAX
    ensures t.procCount <= PROC_MAX ==> r.table.procCount == t.procCount + 1
    ensures r.ForkFailed? ==> r.table.procs == t.procs && r.table.pidCounter == t.pidCounter
    ensures r.Forked? <==> t.procCount <= PROC_MAX && created && copied
    ensures t.procCount <= PROC_MAX && !created ==> r == ForkFailed(t.(procCount := t.procCount + 1), EMPROC)
    ensures t.procCount <= PROC_MAX && created && !copied ==> r == ForkFailed(t.(procCount := t.procCount + 1), ENOMEM)
    ensures r.Forked? ==> && r.child == t.pidCounter
                          && r.table.pidCounter == t.pidCounter + 1
                          && r.table.procs.Keys == t.procs.Keys + {r.child}
                          && r.table.procs[r.child] == Proc(r.child, Some(caller), [], false, 0)
    ensures r.Forked? && r.child !in t.procs ==>
              && r.table.procs[caller] == t.procs[caller].(children := t.procs[caller].children + [r.child])
              && forall p :: p in t.procs && p != caller ==> r.table.procs[p] == t.procs[p]
  {
    if t.procCount > PROC_MAX then ForkFailed(t, EMPROC)
    else
      var bumped := t.(procCount := t.procCount + 1);
      if !created then ForkFailed(bumped, EMPROC)
      else if !copied then ForkFailed(bumped, ENOMEM)
      else
        var child := t.pidCounter;
        var me := t.procs[caller];
        var procs := t.procs[caller := me.(children := me.children + [child])];
        Forked(Table(procs[child := Proc(child, Some(caller), [], false, 0)], bumped.procCount, t.pidCounter + 1), child)
  }

  /** `sys__exit` of a running (non-zombie) process: store the code, reap the
      zombie children and orphan the live ones, empty the children array, then
      drop the record when there is no parent or keep it as a zombie. */
  function Exit(t: Table, caller: Pid, code: int): (r: Table)
    requires caller in t.procs
    requires !t.procs[caller].isZombie
    ensures r.procCount == t.procCount && r.pidCounter == t.pidCounter
    ensures r.procs.Keys <= t.procs.Keys
    ensures forall c :: c in t.procs[caller].children && c in t.procs && c != caller ==>
              if t.procs[c].isZombie then c !in r.procs
              else c in r.procs && r.procs[c] == t.procs[c].(parent := None)
    ensures forall q :: q in t.procs && q !in t.procs[caller].children && q != caller ==>
              q in r.procs && r.procs[q] == t.procs[q]
    ensures caller !in t.procs[caller].children ==> (caller in r.procs <==> t.procs[caller].parent.Some?)
    ensures caller in r.procs ==>
              r.procs[caller] == t.procs[caller].(exitcode := code, children := [], isZombie := true)
  {
    var kids := t.procs[caller].children;
    var procs := map q | q in t.procs && !(q in kids && t.procs[q].isZombie) ::
                   if q in kids then t.procs[q].(parent := None) else t.procs[q];
    var me := procs[caller].(exitcode := code, children := []);
    if me.parent == None then t.(procs := procs - {caller})
    else t.(procs := procs[caller := me.(isZombie := true)])
  }

  /** The body of the `while(1)` loop of `sys_waitpid` for a claimed child:
      a zombie is reaped and its stored exit code reported; a live child makes
      the parent sleep until it has exited. */
  function Collect(t: Table, child: Pid): (r: WaitOutcome)
    requires child in t.procs
    ensures r.Reaped? <==> t.procs[child].isZombie
    ensures r.Blocked? <==> !t.procs[child].isZombie
    ensures r.Blocked? ==> r.table == t
    ensures r.Reaped? ==> && r.table == t.(procs := t.procs - {child})
                          && r.pid == t.procs[child].pid
                          && r.exitcode == t.procs[child].exitcode
  {
    var c := t.procs[child];
    if c.isZombie then Reaped(t.(procs := t.procs - {child}), c.pid, c.exitcode)
    else Blocked(t)
  }

  /** `sys_waitpid`: nonzero options fail with EINVAL, a pid above
      `proc_count` with ESRCH, a pid none of the caller's children carries
      with ECHILD; otherwise the child is taken off the children array before
      it is collected, so it can be waited for only once. */
  function Waitpid(t: Table, caller: Pid, pid: Pid, options: int): (r: WaitOutcome)
    requires caller in t.procs
    requires ChildrenRecorded(t.procs, t.procs[caller].children)
    ensures r.WaitFailed? ==> r.table == t
    ensures options != 0 ==> r == WaitFailed(t, EINVAL)
    ensures options == 0 && pid > t.procCount ==> r == WaitFailed(t, ESRCH)
    ensures options == 0 && pid <= t.procCount ==>
              (r == WaitFailed(t, ECHILD) <==>
                 forall i :: 0 <= i < |t.procs[caller].children| ==> t.procs[t.procs[caller].children[i]].pid != pid)
    ensures r.Reaped? ==> r.pid == pid
  {
    if options != 0 then WaitFailed(t, EINVAL)
    else if pid > t.procCount then WaitFailed(t, ESRCH)
    else
      var me := t.procs[caller];
      match FindChild(t.procs, me.children, pid, 0)
      case None => WaitFailed(t, ECHILD)
      case Some(i) =>
        var claimed := t.(procs := t.procs[caller := me.(children := RemoveAt(me.children, i))]);
        Collect(claimed, me.children[i])
  }
}
