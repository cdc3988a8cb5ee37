/**
 * Properties of the process lifecycle that relate several system calls, and
 * preservation of the table invariant `Wf` by each of them.
 */
module ProcProps {
  import opened Wrappers
  import opened ProcTable

  /** A parent claims a child by pid: under the invariant the record keyed
      `pid` is the one carrying `pid`. */
  lemma WfChildrenRecorded(t: Table, p: Pid)
    requires Wf(t) && p in t.procs
    ensures ChildrenRecorded(t.procs, t.procs[p].children)
    ensures p !in t.procs[p].children
  {
    var kids := t.procs[p].children;
    forall i | 0 <= i < |kids|
      ensures kids[i] in t.procs
    {
      assert kids[i] in t.procs[p].children;
    }
  }

  /** fork keeps the invariant; a new child gets a pid no record holds, and
      it is appended to its parent's children. */
  lemma ForkPreservesWf(t: Table, caller: Pid, created: bool, copied: bool)
    requires Wf(t) && caller in t.procs
    ensures Wf(Fork(t, caller, created, copied).table)
    ensures Fork(t, caller, created, copied).Forked? ==> Fork(t, caller, created, copied).child !in t.procs
  {
    var r := Fork(t, caller, created, copied);
    if r.Forked? {
      var c := r.child;
      assert c !in t.procs;
      var u := r.table;
      forall p, x | p in u.procs && x in u.procs[p].children
        ensures x in u.procs && u.procs[x].parent == Some(p)
      {
        if p == caller {
          if x != c {
            assert x in t.procs[caller].children;
          }
        } else {
          assert p != c;
          assert x in t.procs[p].children;
        }
      }
      forall p | p in u.procs
        ensures NoDup(u.procs[p].children)
      {
        if p == caller {
          var kids := t.procs[caller].children;
          assert c !in kids;
          assert u.procs[p].children == kids + [c];
        }
      }
    }
  }

  /** _exit keeps the invariant. Since nobody lists a parentless process, the
      caller's record is dropped exactly when it had no parent. */
  lemma ExitPreservesWf(t: Table, caller: Pid, code: int)
    requires Wf(t) && caller in t.procs && !t.procs[caller].isZombie
    ensures Wf(Exit(t, caller, code))
    ensures caller in Exit(t, caller, code).procs <==> t.procs[caller].parent.Some?
    ensures forall c :: c in t.procs[caller].children ==> c != caller && c in t.procs
  {
    WfChildrenRecorded(t, caller);
    ExitKeepsRecordsKeyed(t, caller, code);
    ExitKeepsChildrenLinked(t, caller, code);
  }

  /** The part of `ExitPreservesWf` about each record on its own: keys,
      pids, parents and duplicate-free children arrays. */
  lemma ExitKeepsRecordsKeyed(t: Table, caller: Pid, code: int)
    requires Wf(t) && caller in t.procs && !t.procs[caller].isZombie
    requires caller !in t.procs[caller].children
    ensures var u := Exit(t, caller, code);
            CountBounded(u) && KeyedBelowCounter(u) && ChildrenDistinct(u)
  {
  }

  /** The part of `ExitPreservesWf` about links: a surviving record lists
      only children that survive and still point back at it. */
  lemma ExitKeepsChildrenLinked(t: Table, caller: Pid, code: int)
    requires Wf(t) && caller in t.procs && !t.procs[caller].isZombie
    requires caller !in t.procs[caller].children
    ensures ChildrenLinked(Exit(t, caller, code))
  {
    var kids := t.procs[caller].children;
    var u := Exit(t, caller, code);
    forall p, x | p in u.procs && x in u.procs[p].children
      ensures x in u.procs && u.procs[x].parent == Some(p)
    {
      assert p != caller;
      assert x in t.procs[p].children;
      assert x !in kids;
    }
  }

  /** A collected child that no record lists can be reaped without breaking
      the invariant. */
  predicate Unlisted(t: Table, c: Pid) {
    forall p :: p in t.procs ==> c !in t.procs[p].children
  }

  lemma CollectPreservesWf(t: Table, c: Pid)
    requires Wf(t) && c in t.procs && Unlisted(t, c)
    ensures Wf(Collect(t, c).table)
  {
  }

  /** waitpid with a listed pid claims that child: the child leaves the
      caller's children array whatever happens next, a zombie child is
      removed from the table with its exit code reported, and a live child
      keeps its record while the caller sleeps. Any other pid is ECHILD. */
  lemma WaitpidClaimsChild(t: Table, caller: Pid, pid: Pid)
    requires Wf(t) && caller in t.procs && pid <= t.procCount
    ensures ChildrenRecorded(t.procs, t.procs[caller].children)
    ensures var r := Waitpid(t, caller, pid, 0);
            && (r.WaitFailed? <==> pid !in t.procs[caller].children)
            && (r.WaitFailed? ==> r.err == ECHILD)
            && (!r.WaitFailed? ==>
                  && pid in t.procs && pid != caller
                  && caller in r.table.procs
                  && pid !in r.table.procs[caller].children
                  && Unlisted(r.table, pid)
                  && r.table.procCount == t.procCount && r.table.pidCounter == t.pidCounter
                  && (forall q :: q in r.table.procs && q != caller && q != pid ==> r.table.procs[q] == t.procs[q])
                  && r.table.procs[caller] == t.procs[caller].(children := r.table.procs[caller].children)
                  && (forall x :: x in t.procs[caller].children && x != pid ==> x in r.table.procs[caller].children)
                  && (forall x :: x in r.table.procs[caller].children ==> x in t.procs[caller].children)
                  && NoDup(r.table.procs[caller].children)
                  && (r.Reaped? <==> t.procs[pid].isZombie)
                  && (r.Reaped? ==> r.exitcode == t.procs[pid].exitcode && r.table.procs.Keys == t.procs.Keys - {pid})
                  && (r.Blocked? ==> r.table.procs.Keys == t.procs.Keys && r.table.procs[pid] == t.procs[pid]))
  {
    WfChildrenRecorded(t, caller);
  }

  /** waitpid keeps the invariant. */
  lemma WaitpidPreservesWf(t: Table, caller: Pid, pid: Pid, options: int)
    requires Wf(t) && caller in t.procs
    ensures ChildrenRecorded(t.procs, t.procs[caller].children)
    ensures Wf(Waitpid(t, caller, pid, options).table)
  {
    WfChildrenRecorded(t, caller);
    if options == 0 && pid <= t.procCount {
      WaitpidClaimsChild(t, caller, pid);
      var r := Waitpid(t, caller, pid, 0);
      if !r.WaitFailed? {
        ClaimKeepsWf(t, r.table, caller, pid);
      }
    }
  }

  /** A table that differs from a well-formed one only by the claim of child
      `pid` of `caller` (the child left the caller's array, and possibly the
      table) is well-formed. */
  lemma ClaimKeepsWf(t: Table, u: Table, caller: Pid, pid: Pid)
    requires Wf(t) && caller in t.procs && pid in t.procs[caller].children
    requires u.procCount == t.procCount && u.pidCounter == t.pidCounter
    requires u.procs.Keys <= t.procs.Keys && u.procs.Keys >= t.procs.Keys - {pid}
    requires caller in u.procs
    requires u.procs[caller] == t.procs[caller].(children := u.procs[caller].children)
    requires NoDup(u.procs[caller].children)
    requires forall x :: x in u.procs[caller].children ==> x in t.procs[caller].children && x != pid
    requires forall q :: q in u.procs && q != caller ==> u.procs[q] == t.procs[q]
    ensures Wf(u)
  {
    assert t.procs[pid].parent == Some(caller);
    forall p, x | p in u.procs && x in u.procs[p].children
      ensures x in u.procs && u.procs[x].parent == Some(p)
    {
      assert x in t.procs[p].children;
      assert x != pid;
    }
  }

  /** A child can be waited for only once: a second waitpid on the same pid,
      whether the first reaped the child or put the caller to sleep, fails
      with ECHILD. */
  lemma RepeatWaitpidIsEchild(t: Table, caller: Pid, pid: Pid)
    requires Wf(t) && caller in t.procs
    requires ChildrenRecorded(t.procs, t.procs[caller].children)
    requires !Waitpid(t, caller, pid, 0).WaitFailed?
    ensures var u := Waitpid(t, caller, pid, 0).table;
            && caller in u.procs
            && ChildrenRecorded(u.procs, u.procs[caller].children)
            && Waitpid(u, caller, pid, 0) == WaitFailed(u, ECHILD)
  {
    WaitpidPreservesWf(t, caller, pid, 0);
    WaitpidClaimsChild(t, caller, pid);
    var u := Waitpid(t, caller, pid, 0).table;
    WfChildrenRecorded(u, caller);
    var kids := u.procs[caller].children;
    forall i | 0 <= i < |kids|
      ensures u.procs[kids[i]].pid != pid
    {
      assert kids[i] in u.procs[caller].children;
    }
  }
}
