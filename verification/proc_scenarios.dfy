/**
 * Multi-call scenarios of the process lifecycle.
 */
module ProcScenarios {
  import opened Wrappers
  import opened ProcTable
  import opened ProcProps

  /** Pids handed out by successive successful forks are distinct and
      increasing, whoever forks. */
  lemma SuccessiveForkPidsDistinct(t: Table, a: Pid, b: Pid)
    requires Wf(t) && a in t.procs
    requires Fork(t, a, true, true).Forked?
    requires b in Fork(t, a, true, true).table.procs
    requires Fork(Fork(t, a, true, true).table, b, true, true).Forked?
    ensures Fork(t, a, true, true).child < Fork(Fork(t, a, true, true).table, b, true, true).child
    ensures Fork(Fork(t, a, true, true).table, b, true, true).child !in t.procs
  {
    ForkPreservesWf(t, a, true, true);
  }

  /** The forked child's getpid reports the pid fork returned to the parent. */
  lemma ForkedChildGetPid(t: Table, caller: Pid)
    requires caller in t.procs
    requires Fork(t, caller, true, true).Forked?
    ensures var r := Fork(t, caller, true, true);
            GetPid(r.table, r.child) == r.child
  {
  }

  /** Round trip of the lifecycle: fork a child, let it exit with `code`, and
      wait for it. The parent gets back the child's pid and `code`, and the
      table of records is exactly the one before the fork; only the two
      counters have moved. The pid must not exceed `proc_count`, which holds
      when `pid_counter` is at most one above it. */
  lemma ForkExitWaitRoundTrip(t: Table, caller: Pid, code: int)
    requires Wf(t) && caller in t.procs
    requires t.procCount <= PROC_MAX
    requires t.pidCounter <= t.procCount + 1
    ensures var f := Fork(t, caller, true, true);
            && f.Forked?
            && !f.table.procs[f.child].isZombie
            && var v := Exit(f.table, f.child, code);
               && caller in v.procs
               && ChildrenRecorded(v.procs, v.procs[caller].children)
               && var w := Waitpid(v, caller, f.child, 0);
                  && w.Reaped? && w.pid == f.child && w.exitcode == code
                  && w.table.procs == t.procs
                  && w.table.procCount == t.procCount + 1
                  && w.table.pidCounter == t.pidCounter + 1
  {
    var f := Fork(t, caller, true, true);
    var v := Exit(f.table, f.child, code);
    ExitedChildReadyToReap(t, caller, code);
    WaitOnLastChild(v, caller, t.procs[caller].children, f.child);
  }

  /** The table after the fork and the child's exit, in the shape
      `WaitOnLastChild` needs: the zombie child is listed last, after the
      caller's earlier children, and dropping it gives back the old table. */
  lemma ExitedChildReadyToReap(t: Table, caller: Pid, code: int)
    requires Wf(t) && caller in t.procs
    requires t.procCount <= PROC_MAX
    ensures var f := Fork(t, caller, true, true);
            && f.Forked?
            && !f.table.procs[f.child].isZombie
            && var c := f.child;
               var kids := t.procs[caller].children;
               var v := Exit(f.table, c, code);
               && caller in v.procs && c in v.procs && caller != c
               && v.procs[caller].children == kids + [c]
               && ChildrenRecorded(v.procs, kids)
               && (forall j :: 0 <= j < |kids| ==> v.procs[kids[j]].pid != c)
               && v.procs[c].pid == c && v.procs[c].isZombie && v.procs[c].exitcode == code
               && v.procCount == t.procCount + 1 && v.pidCounter == t.pidCounter + 1
               && v.procs[caller := v.procs[caller].(children := kids)] - {c} == t.procs
  {
    ChildExitKeepsZombie(t, caller, code);
    WfChildrenRecorded(t, caller);
    var f := Fork(t, caller, true, true);
    var c := f.child;
    var kids := t.procs[caller].children;
    var v := Exit(f.table, c, code);
    assert c !in t.procs;
    assert v.procs[caller] == t.procs[caller].(children := kids + [c]);
    forall j | 0 <= j < |kids|
      ensures v.procs[kids[j]] == t.procs[kids[j]] && v.procs[kids[j]].pid != c
    {
      assert kids[j] in t.procs;
      assert t.procs[kids[j]].pid == kids[j] < t.pidCounter;
    }
    var m := v.procs[caller := v.procs[caller].(children := kids)] - {c};
    assert m.Keys == t.procs.Keys;
    assert forall q :: q in m ==> m[q] == t.procs[q];
    assert m == t.procs;
  }

  /** Step one of the round trip: the fresh child has no children, so its
      exit only turns its own record into a zombie carrying the code. */
  lemma ChildExitKeepsZombie(t: Table, caller: Pid, code: int)
    requires Wf(t) && caller in t.procs
    requires Fork(t, caller, true, true).Forked?
    ensures var f := Fork(t, caller, true, true);
            var v := Exit(f.table, f.child, code);
            && !f.table.procs[f.child].isZombie
            && v.procs == f.table.procs[f.child := f.table.procs[f.child].(exitcode := code, isZombie := true)]
            && v.procCount == f.table.procCount && v.pidCounter == f.table.pidCounter
  {
    ForkPreservesWf(t, caller, true, true);
  }

  /** Step two of the round trip: waiting for the zombie child appended last
      to the caller's children reaps it and restores the earlier array. */
  lemma WaitOnLastChild(v: Table, caller: Pid, kids: seq<Pid>, c: Pid)
    requires caller in v.procs && c in v.procs && caller != c
    requires v.procs[caller].children == kids + [c]
    requires ChildrenRecorded(v.procs, kids)
    requires forall j :: 0 <= j < |kids| ==> v.procs[kids[j]].pid != c
    requires v.procs[c].pid == c && v.procs[c].isZombie
    requires c <= v.procCount
    ensures ChildrenRecorded(v.procs, v.procs[caller].children)
    ensures Waitpid(v, caller, c, 0)
              == Reaped(v.(procs := v.procs[caller := v.procs[caller].(children := kids)] - {c}), c, v.procs[c].exitcode)
  {
    var ks := kids + [c];
    assert forall j :: 0 <= j < |kids| ==> ks[j] == kids[j];
    assert v.procs[ks[|kids|]].pid == c;
    assert FindChild(v.procs, ks, c, 0) == Some(|kids|);
    assert RemoveAt(ks, |kids|) == kids;
  }

  /** The scenario of a parent with pid 1 whose child gets pid 7, exits with
      42 before the parent waits, and is then reaped: waitpid reports (7, 42)
      and the child's record is gone. */
  lemma ParentReapsExitedChild()
    ensures var t := Table(map[1 := Proc(1, None, [], false, 0)], 6, 7);
            var f := Fork(t, 1, true, true);
            && f.Forked? && f.child == 7
            && !f.table.procs[7].isZombie
            && var v := Exit(f.table, 7, 42);
               && 1 in v.procs
               && ChildrenRecorded(v.procs, v.procs[1].children)
               && var w := Waitpid(v, 1, 7, 0);
                  && w.Reaped? && w.pid == 7 && w.exitcode == 42
                  && 7 !in w.table.procs
  {
    var t := Table(map[1 := Proc(1, None, [], false, 0)], 6, 7);
    assert Wf(t);
    ForkExitWaitRoundTrip(t, 1, 42);
  }

  /** waitpid compares the pid against `proc_count`, not against the highest
      pid handed out. When `pid_counter` runs more than one ahead of
      `proc_count` (for instance when pids start at 2), a freshly forked,
      listed child is refused with ESRCH. */
  lemma WaitpidRefusesChildAboveProcCount(t: Table, caller: Pid)
    requires Wf(t) && caller in t.procs
    requires t.pidCounter > t.procCount + 1
    requires Fork(t, caller, true, true).Forked?
    ensures var f := Fork(t, caller, true, true);
            && f.child in f.table.procs[caller].children
            && ChildrenRecorded(f.table.procs, f.table.procs[caller].children)
            && Waitpid(f.table, caller, f.child, 0) == WaitFailed(f.table, ESRCH)
  {
  }

  /** A waitpid that blocks completes once the child exits: the parent's
      re-check after waking reaps the child and reports the exit code. */
  lemma BlockedWaitCompletesAfterChildExit(t: Table, caller: Pid, pid: Pid, code: int)
    requires Wf(t) && caller in t.procs && pid <= t.procCount
    requires pid in t.procs[caller].children && !t.procs[pid].isZombie
    ensures ChildrenRecorded(t.procs, t.procs[caller].children)
    ensures var r := Waitpid(t, caller, pid, 0);
            && r.Blocked?
            && pid in r.table.procs && !r.table.procs[pid].isZombie
            && var v := Exit(r.table, pid, code);
               && pid in v.procs
               && var w := Collect(v, pid);
                  && w.Reaped? && w.pid == pid && w.exitcode == code
                  && pid !in w.table.procs
  {
    WaitpidClaimsChild(t, caller, pid);
    WaitpidPreservesWf(t, caller, pid, 0);
    var u := Waitpid(t, caller, pid, 0).table;
    assert u.procs[pid].parent == Some(caller);
    ExitPreservesWf(u, pid, code);
  }

  /** A process whose parent has already exited is orphaned, and its own exit
      then removes its record: nobody is left to reap it. */
  lemma OrphanExitReclaims(t: Table, p: Pid, c: Pid, x: int, y: int)
    requires Wf(t) && p in t.procs && !t.procs[p].isZombie
    requires c in t.procs[p].children && !t.procs[c].isZombie
    ensures var v := Exit(t, p, x);
            && c in v.procs && v.procs[c].parent == None && !v.procs[c].isZombie
            && c !in Exit(v, c, y).procs
  {
  }
}
