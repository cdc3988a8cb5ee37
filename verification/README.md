# OS/161 traffic intersection and process lifecycle, modelled in Dafny

This project models two small state machines of an OS/161 kernel:

* the **intersection admission policy** of `kern/synchprobs/traffic_synch.c`:
  a traffic light (`-1` when idle, else a direction index 0..3) and four
  per-direction counters of vehicles that are waiting or inside. The entry hook
  counts a vehicle in and claims an idle light; the exit hook counts it out
  and, when its direction drains, hands the light to the direction with the
  largest count (lowest index on ties) or makes it idle;
* the **process lifecycle** of `kern/syscall/proc_syscalls.c` (the OPT_A2
  code): `fork`, `_exit`, `waitpid` and `getpid` over a table of process
  records keyed by pid, each record holding its pid, parent, children,
  zombie flag and exit code, plus the global `proc_count` and `pid_counter`.

Every hook and system call is one atomic transition on an immutable state,
and calls run one at a time. Blocking becomes an outcome:
`Traffic.Enter` reports whether the vehicle is let in, and
`ProcTable.Waitpid` reports `Blocked` when the parent would sleep on a live
child; `ProcTable.Collect` is the re-check the parent makes when woken.

Files:

* `wrappers.dfy` — `Option`.
* `traffic.dfy` — module `Traffic`: state, invariant `Valid`, `Init`, `Enter`,
  the selection scan `ArgMax`, `NextLight`, `Exit`.
* `traffic_props.dfy` — module `TrafficProps`: mutual exclusion, uniqueness
  of the selection, starvation, idle-then-grant, the tie trace.
* `proc_table.dfy` — module `ProcTable`: records, table, invariant `Wf`,
  `RemoveAt`, `FindChild`, `GetPid`, `Fork`, `Exit`, `Collect`, `Waitpid`.
* `proc_props.dfy` — module `ProcProps`: each call preserves `Wf`; waitpid
  claims a child at most once.
* `proc_scenarios.dfy` — module `ProcScenarios`: fork/exit/wait round trip,
  the pid-7 scenario, orphan reclamation, the ESRCH comparison.

Helpers whose code is not part of this model are given assumed effects:
`add_child_proc` appends to the children array, `remove_child` deletes one
index (`ProcTable.RemoveAt`), `proc_cleanup` removes the record from the
table and touches nothing else (in particular not `proc_count`), and
`proc_create_runprogram` yields a record that is not a zombie, has no
children and exit code 0. The `Direction` enum of `synchprobs.h` is not part of
this model; directions are the indices 0..3 the source uses for its arrays.
The comment on `trafficlight` ("0 = NULL, 1 = N, ...") disagrees with the
code, which uses `-1` for an idle light; the model follows the code.

Two behaviours of the code that a reader might not expect, both kept as
written:

* `waitpid` compares the pid against `proc_count` (the number of fork
  admissions), not against the highest pid handed out, and answers ESRCH
  when it is larger
  (`ProcScenarios.WaitpidRefusesChildAboveProcCount` shows a listed child
  refused this way when `pid_counter` runs more than one ahead of
  `proc_count`). Whether that happens in practice depends on the initial
  `pid_counter`, which is not part of this model.
* the fork bound is `proc_count > PROC_MAX` checked before the increment, so
  `proc_count` can reach `PROC_MAX + 1`.

## Model

| member | source | states |
|---|---|---|
| Traffic.Init | os161-1.99/kern/synchprobs/traffic_synch.c:49-89 | after init the light is idle, all four counts are zero, and the invariant holds |
| Traffic.Enter | os161-1.99/kern/synchprobs/traffic_synch.c:139-147 | only the origin's count rises, by one; an idle light is claimed for the origin, a set light is kept; the vehicle is let in iff the light was idle or already the origin; the invariant is preserved |
| Traffic.ArgMax | os161-1.99/kern/synchprobs/traffic_synch.c:180-188 | the scan that moves only on a strictly larger count ends on the first index holding the maximum of the prefix |
| Traffic.NextLight | os161-1.99/kern/synchprobs/traffic_synch.c:180-194 | the chosen light is idle or the first maximal direction; it is a direction with vehicles whenever one has any, idle only when no count is positive, and idle whenever all counts are zero |
| Traffic.Exit | os161-1.99/kern/synchprobs/traffic_synch.c:179-195 | only the origin's count drops, by one; while it stays positive the light is kept; when it reaches zero the light goes idle iff no count is positive, else to the first maximal direction; the invariant is preserved |
| TrafficProps.FirstMaxUnique | os161-1.99/kern/synchprobs/traffic_synch.c:183-188 | the selection names exactly one direction |
| TrafficProps.EntryExcludesOtherDirections | os161-1.99/kern/synchprobs/traffic_synch.c:142-147 | once a vehicle from one direction is let in, a vehicle from another direction is held back and the light stays |
| TrafficProps.HolderEnterExitIsIdentity | os161-1.99/kern/synchprobs/traffic_synch.c:139-182 | an arrival and a departure on the light's own direction restore the exact state, so other directions can starve |
| TrafficProps.LastExitIdlesThenAnyEntryGranted | os161-1.99/kern/synchprobs/traffic_synch.c:143-190 | when the last vehicle leaves the light goes idle and the next arrival from any direction is let in |
| TrafficProps.TieKeepsLowerDirection | os161-1.99/kern/synchprobs/traffic_synch.c:143-193 | enter(0), enter(0), enter(1): the first two are let in, the third waits; exit(0) keeps the light at 0 on the tie, a second exit(0) gives it to 1 |
| ProcTable.RemoveAt | os161-1.99/kern/syscall/proc_syscalls.c:166 | removing one index keeps every other element and, for a duplicate-free array, removes the element and keeps the array duplicate-free |
| ProcTable.FindChild | os161-1.99/kern/syscall/proc_syscalls.c:160-164 | finds the first child whose record carries the pid, and finds none iff no child carries it |
| ProcTable.GetPid | os161-1.99/kern/syscall/proc_syscalls.c:112-118 | under the invariant getpid returns the caller's own pid |
| ProcTable.Fork | os161-1.99/kern/syscall/proc_syscalls.c:211-249 | EMPROC with nothing changed iff `proc_count > PROC_MAX`; otherwise `proc_count` rises by one in every outcome; a NULL from `proc_create_runprogram` gives EMPROC and an `as_copy` failure gives ENOMEM, each changing nothing else; success gives the child pid `pid_counter`, bumps `pid_counter`, records the child with the caller as parent and appends it to the caller's children, leaving other records alone |
| ProcTable.Exit | os161-1.99/kern/syscall/proc_syscalls.c:46-71 | zombie children are removed, live children lose their parent, other records are unchanged; the caller's record is removed iff it has no parent, otherwise it becomes a zombie with the exit code and no children; counters unchanged |
| ProcTable.Collect | os161-1.99/kern/syscall/proc_syscalls.c:168-180 | a zombie child is removed from the table and its pid and stored exit code reported; a live child leaves the table as it is and the parent blocks |
| ProcTable.Waitpid | os161-1.99/kern/syscall/proc_syscalls.c:148-187 | EINVAL for nonzero options first, then ESRCH for a pid above `proc_count`, then ECHILD iff no child carries the pid; errors leave the table unchanged; a reaped result reports the requested pid |
| ProcProps.WfChildrenRecorded | os161-1.99/kern/syscall/proc_syscalls.c:160-164 | under the invariant every listed child has a record and no process lists itself |
| ProcProps.ForkPreservesWf | os161-1.99/kern/syscall/proc_syscalls.c:211-249 | fork keeps the table invariant, including `proc_count <= PROC_MAX + 1`, and the new pid was held by no record |
| ProcProps.ExitPreservesWf | os161-1.99/kern/syscall/proc_syscalls.c:49-74 | exit keeps the table invariant and removes the caller's record exactly when it has no parent |
| ProcProps.ExitKeepsRecordsKeyed | os161-1.99/kern/syscall/proc_syscalls.c:46-71 | exit keeps the count bound, records keyed by their pid below `pid_counter` with no self-parent, and duplicate-free children arrays |
| ProcProps.ExitKeepsChildrenLinked | os161-1.99/kern/syscall/proc_syscalls.c:49-67 | after exit every surviving record lists only surviving children that still point back at it |
| ProcProps.CollectPreservesWf | os161-1.99/kern/syscall/proc_syscalls.c:169-172 | reaping a child that no record lists keeps the table invariant |
| ProcProps.WaitpidClaimsChild | os161-1.99/kern/syscall/proc_syscalls.c:159-187 | with options 0 and pid within `proc_count`: ECHILD iff the pid is not among the caller's children; otherwise the child leaves the children array while the caller's other children and fields stay, every other record and both counters are unchanged, and the child is reaped with its exit code iff it is a zombie, else keeps its record while the caller blocks |
| ProcProps.WaitpidPreservesWf | os161-1.99/kern/syscall/proc_syscalls.c:148-187 | waitpid keeps the table invariant |
| ProcProps.ClaimKeepsWf | os161-1.99/kern/syscall/proc_syscalls.c:164-172 | a table that differs from a well-formed one only by a parent's claim of one child (off its array, possibly out of the table) is well-formed |
| ProcProps.RepeatWaitpidIsEchild | os161-1.99/kern/syscall/proc_syscalls.c:164-167 | after a waitpid that claimed a child, a second waitpid on the same pid fails with ECHILD |
| ProcScenarios.SuccessiveForkPidsDistinct | os161-1.99/kern/syscall/proc_syscalls.c:243-245 | two successive successful forks return increasing pids, and the second was held by no record before |
| ProcScenarios.ForkedChildGetPid | os161-1.99/kern/syscall/proc_syscalls.c:243-249 | the child's getpid equals the pid fork returned to the parent |
| ProcScenarios.ForkExitWaitRoundTrip | os161-1.99/kern/syscall/proc_syscalls.c:164-182 | fork, child exit with a code, then waitpid: the parent gets the child's pid and code and the record table is back to what it was before the fork |
| ProcScenarios.ChildExitKeepsZombie | os161-1.99/kern/syscall/proc_syscalls.c:64-71 | a freshly forked child's exit only turns its own record into a zombie carrying the code |
| ProcScenarios.WaitOnLastChild | os161-1.99/kern/syscall/proc_syscalls.c:161-182 | waiting for a zombie child listed last reaps it and restores the earlier children array |
| ProcScenarios.ExitedChildReadyToReap | os161-1.99/kern/syscall/proc_syscalls.c:64-71 | after fork and the child's exit, the zombie child carrying the code is listed last after the parent's earlier children, and dropping it gives back the table before the fork |
| ProcScenarios.BlockedWaitCompletesAfterChildExit | os161-1.99/kern/syscall/proc_syscalls.c:164-182 | waitpid on a live child blocks; after the child exits, the parent's re-check reaps it and reports its pid and exit code |
| ProcScenarios.ParentReapsExitedChild | os161-1.99/kern/syscall/proc_syscalls.c:169-182 | parent 1 forks child 7, the child exits with 42, waitpid(7) reports (7, 42) and the child's record is gone |
| ProcScenarios.WaitpidRefusesChildAboveProcCount | os161-1.99/kern/syscall/proc_syscalls.c:155 | a listed child whose pid exceeds `proc_count` is refused with ESRCH |
| ProcScenarios.OrphanExitReclaims | os161-1.99/kern/syscall/proc_syscalls.c:56-67 | a live child of an exiting parent becomes an orphan, and its own exit then removes its record |

## Left out

- Locks, condition variables, `cv_wait`/`cv_signal`/`cv_broadcast`: each hook and system call is one atomic step. The `if` (not `while`) around the wait in `intersection_before_entry` and the early returns that keep `proc_count_lk` held (ESRCH in `sys_waitpid`, EMPROC in `sys_fork`) are concurrency defects outside a one-step model.
- ProcTable.Waitpid: while `proc_count` is 0 no fork has run, so `proc_count_lk` is still NULL (proc_syscalls.c:21, created only by `sys_fork` at :208-210) and the source's `lock_acquire(proc_count_lk)` at :154 acquires a NULL lock before it can answer ESRCH or ECHILD; the model answers as if the lock existed.
- Concurrent forks: the model runs forks one at a time, but `sys_fork` reads and increments `pid_counter` holding only the new child's own lock, and takes `proc_count_lk`, the parent's lock and the child's lock in three separate steps (with the lazy creation of `proc_count_lk` unguarded). Two overlapping forks can hand out the same pid. `ProcScenarios.SuccessiveForkPidsDistinct` and the freshness clause of `ProcProps.ForkPreservesWf` hold only for forks that do not overlap.
- The `destination` argument of the intersection hooks, which the source ignores as well.
- `intersection_sync_cleanup` and the panics on failed creation of the locks and condition variables in `intersection_sync_init`: setup and teardown only.
- Traffic.Exit: requires the origin's count to be positive (a vehicle leaves only after it entered); an unmatched exit that would drive a count negative is not modelled.
- `sys_execv`: user-memory copying, file opening, ELF loading and address-space setup are all calls into code outside this model.
- Address-space operations (`as_deactivate`, `as_destroy`, `as_copy`, `curproc_setas`): `as_copy` failure is the `copied` parameter of `ProcTable.Fork`, `proc_create_runprogram` returning NULL is its `created` parameter; the process structure leaked on those paths has no record in the table.
- Thread operations (`thread_fork`, `thread_exit`, `proc_remthread`), the trapframe copy and `kmalloc`. In particular a failing `thread_fork` returns its error after the child is already linked; the model always reports the child pid.
- The `copyout` of the status word in `sys_waitpid` (and its failure after the child is already reaped) and the `_MKWAIT_EXIT` encoding: `Reaped` carries the raw exit code.
- ProcTable.Exit: requires the caller not to be a zombie; a zombie has no thread to call `_exit`, and the source asserts the caller still has an address space.
- The initial `pid_counter`, the first process and the initial exit code of a new record are set in code that is not part of this model; new records start with exit code 0, and lemmas quantify over every table that satisfies the invariant.
- 32-bit wrap-around of `pid_t` and `int` counters: pids and counts are unbounded integers.
- The non-OPT_A2 stub branches.
