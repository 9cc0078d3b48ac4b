/**
  The task table, the credit scheduler and the task lifecycle of the kernel
  (sched.c). The tables `task[NR_TASKS]`, `idle_tasks[NCPU]` and
  `cpus[NCPU].proc` are arrays of a class that the operations update in
  place, with `sched_lock` held by the caller; the lock itself and the
  low-level context switch are not modelled (a switch is its state update).

  The specification side works on `Sys`, a value snapshot of the three
  tables; every method states its new snapshot as a function of the old one.
*/
module Sched {

  const NR_TASKS: nat := 32
  const NCPU: nat := 1
  /** init_task is task[0]. */
  const INIT: nat := 0

  datatype TaskState = Unused | Running | Sleeping | Runnable | Zombie

  /** A task control block: one of the table slots or the idle task of a CPU. */
  datatype Proc = Idle(cpu: nat) | Slot(index: nat)

  /**
    A kernel pointer as stored in `chan` (a `void *`) and `parent`: null, a
    task control block, or any other kernel object.
  */
  datatype Ptr = Null | TaskPtr(proc: Proc) | Obj(addr: nat)

  datatype Task = Task(
    state: TaskState,
    credits: int,
    priority: int,
    chan: Ptr,
    parent: Ptr,
    pid: int,
    xstate: int,
    flags: int,
    killed: int)

  /** A task control block after memset(0). */
  const ZERO_TASK := Task(Unused, 0, 0, Null, Null, 0, 0, 0, 0)

  /** Snapshot of the task table, the idle tasks and each CPU's current task. */
  datatype Sys = Sys(tasks: seq<Task>, idles: seq<Task>, cpus: seq<Proc>)

  predicate ProcInRange(p: Proc)
  {
    match p
    case Idle(c) => c < NCPU
    case Slot(i) => i < NR_TASKS
  }

  predicate Shaped(s: Sys)
  {
    && |s.tasks| == NR_TASKS
    && |s.idles| == NCPU
    && |s.cpus| == NCPU
    && forall c :: 0 <= c < NCPU ==> ProcInRange(s.cpus[c])
  }

  function Get(s: Sys, p: Proc): Task
    requires Shaped(s) && ProcInRange(p)
  {
    match p
    case Idle(c) => s.idles[c]
    case Slot(i) => s.tasks[i]
  }

  function Put(s: Sys, p: Proc, t: Task): (r: Sys)
    requires Shaped(s) && ProcInRange(p)
    ensures Shaped(r) && r.cpus == s.cpus
  {
    match p
    case Idle(c) => s.(idles := s.idles[c := t])
    case Slot(i) => s.(tasks := s.tasks[i := t])
  }

  // ---------------------------------------------------------------------
  // Invariant of the tables

  predicate Distinct(cs: seq<Proc>)
  {
    forall c, d :: 0 <= c < |cs| && 0 <= d < |cs| && cs[c] == cs[d] ==> c == d
  }

  /**
    Overwriting one entry of a duplicate-free sequence with a value it does
    not contain keeps it duplicate-free, drops the old entry and keeps every
    other membership.
  */
  lemma ReplaceInDistinct(cs: seq<Proc>, k: nat, x: Proc)
    requires Distinct(cs) && k < |cs| && x !in cs
    ensures Distinct(cs[k := x]) && x in cs[k := x] && cs[k] !in cs[k := x]
    ensures forall p :: p != cs[k] && p != x ==> (p in cs[k := x] <==> p in cs)
  {
    var r := cs[k := x];
    assert r[k] == x;
    forall p | p != cs[k] && p != x
      ensures p in r <==> p in cs
    {
      if p in cs {
        var c :| 0 <= c < |cs| && cs[c] == p;
        assert r[c] == p;
      }
    }
  }

  /**
    Mutual exclusion: no two CPUs share a task, a CPU only ever runs its own
    idle task, and a table task is RUNNING exactly when some CPU holds it.
  */
  ghost predicate MutualExclusion(s: Sys)
    requires Shaped(s)
  {
    && Distinct(s.cpus)
    && (forall c :: 0 <= c < NCPU && s.cpus[c].Idle? ==> s.cpus[c].cpu == c)
    && (forall i :: 0 <= i < NR_TASKS ==> (s.tasks[i].state == Running <==> Slot(i) in s.cpus))
  }

  /**
    The kernel's table invariant: mutual exclusion, every live task has a
    positive priority and its slot index as pid, and idle tasks have pid -1.
  */
  ghost predicate Invariant(s: Sys)
  {
    && Shaped(s)
    && MutualExclusion(s)
    && (forall i :: 0 <= i < NR_TASKS && s.tasks[i].state != Unused ==>
          s.tasks[i].priority > 0 && s.tasks[i].pid == i)
    && (forall c :: 0 <= c < NCPU ==> s.idles[c].pid == -1)
  }

  // ---------------------------------------------------------------------
  // task_on_cpu and the candidate rule of schedule()

  /** The first CPU whose current task is `p`, or -1. */
  function FirstCpu(cs: seq<Proc>, p: Proc): (r: int)
    ensures -1 <= r < |cs|
    ensures r == -1 <==> p !in cs
    ensures r >= 0 ==> cs[r] == p && p !in cs[..r]
  {
    if |cs| == 0 then -1
    else if cs[0] == p then 0
    else
      var r := FirstCpu(cs[1..], p);
      assert cs[1..][..if r >= 0 then r else 0] == cs[1..1 + (if r >= 0 then r else 0)];
      if r == -1 then -1 else r + 1
  }

  /**
    Task `i` may be chosen by CPU `cpu`: it is RUNNABLE, or it is this CPU's
    own RUNNING task, and task_on_cpu does not place it on another CPU.
  */
  ghost predicate Candidate(s: Sys, cpu: nat, i: nat)
    requires Shaped(s) && cpu < NCPU && i < NR_TASKS
  {
    var on := FirstCpu(s.cpus, Slot(i));
    && (on == -1 || on == cpu)
    && ((Slot(i) == s.cpus[cpu] && s.tasks[i].state == Running) || s.tasks[i].state == Runnable)
  }

  ghost predicate HasCandidate(s: Sys, cpu: nat)
    requires Shaped(s) && cpu < NCPU
  {
    exists i :: 0 <= i < NR_TASKS && Candidate(s, cpu, i)
  }

  ghost predicate HasPositiveCandidate(s: Sys, cpu: nat)
    requires Shaped(s) && cpu < NCPU
  {
    exists i :: 0 <= i < NR_TASKS && Candidate(s, cpu, i) && s.tasks[i].credits > 0
  }

  /**
    Task `n` is what one scan of schedule() picks: a candidate with positive
    credits, no candidate has more, and every candidate before it has fewer
    (the comparison is a strict `>`, so the lowest index wins ties).
  */
  ghost predicate IsBest(s: Sys, cpu: nat, n: nat)
    requires Shaped(s) && cpu < NCPU
  {
    && n < NR_TASKS
    && Candidate(s, cpu, n)
    && s.tasks[n].credits > 0
    && (forall j :: 0 <= j < NR_TASKS && Candidate(s, cpu, j) ==> s.tasks[j].credits <= s.tasks[n].credits)
    && (forall j :: 0 <= j < n && Candidate(s, cpu, j) ==> s.tasks[j].credits < s.tasks[n].credits)
  }

  /** The pick is deterministic: at most one task is the best. */
  lemma BestIsUnique(s: Sys, cpu: nat, m: nat, n: nat)
    requires Shaped(s) && cpu < NCPU
    requires IsBest(s, cpu, m) && IsBest(s, cpu, n)
    ensures m == n
  {
  }

  /** Of two candidates with equal maximal credits, the lower slot is picked. */
  lemma TieGoesToLowerSlot(s: Sys, cpu: nat, m: nat, n: nat)
    requires Shaped(s) && cpu < NCPU
    requires m < n < NR_TASKS && Candidate(s, cpu, m) && Candidate(s, cpu, n)
    requires s.tasks[m].credits == s.tasks[n].credits
    ensures !IsBest(s, cpu, n)
  {
  }

  // ---------------------------------------------------------------------
  // Recharging credits

  /** `(credits >> 1) + priority`; on a signed value `>> 1` is floor halving, as is `/ 2` here. */
  function RechargeCredit(credits: int, priority: int): int
  {
    credits / 2 + priority
  }

  /** A recharge strictly raises non-positive credits when the priority is positive. */
  lemma RechargeRaises(credits: int, priority: int)
    requires credits <= 0 && priority > 0
    ensures RechargeCredit(credits, priority) > credits
  {
  }

  function RechargedTask(t: Task): Task
  {
    if t.state != Unused then t.(credits := RechargeCredit(t.credits, t.priority)) else t
  }

  /** One recharge pass: every non-UNUSED task is recharged, UNUSED slots are untouched. */
  function Recharged(s: Sys): (r: Sys)
    requires Shaped(s)
    ensures Shaped(r) && r.idles == s.idles && r.cpus == s.cpus
  {
    s.(tasks := seq(NR_TASKS, i requires 0 <= i < NR_TASKS => RechargedTask(s.tasks[i])))
  }

  /** `k` recharge passes. */
  function RechargedTimes(s: Sys, k: nat): (r: Sys)
    requires Shaped(s)
    ensures Shaped(r) && r.idles == s.idles && r.cpus == s.cpus
    ensures forall i :: 0 <= i < NR_TASKS ==> r.tasks[i].state == s.tasks[i].state
    decreases k
  {
    if k == 0 then s else RechargedTimes(Recharged(s), k - 1)
  }

  /** Recharging changes only credits, so it keeps the candidates and the invariant. */
  lemma RechargeKeepsCandidates(s: Sys, cpu: nat)
    requires Shaped(s) && cpu < NCPU
    ensures forall i :: 0 <= i < NR_TASKS ==> (Candidate(Recharged(s), cpu, i) <==> Candidate(s, cpu, i))
    ensures Invariant(s) ==> Invariant(Recharged(s))
  {
  }

  /** Credits of one task after `k` recharge passes. */
  function CreditsAfter(credits: int, priority: int, k: nat): int
    decreases k
  {
    if k == 0 then credits else CreditsAfter(RechargeCredit(credits, priority), priority, k - 1)
  }

  /** How many passes suffice to make credits positive. */
  function PassesNeeded(credits: int): nat
  {
    if credits > 0 then 0 else 1 - credits
  }

  /**
    Starvation freedom: with a positive priority, PassesNeeded(credits)
    recharge passes (or more) leave the task with positive credits.
  */
  lemma {:induction false} RechargeEventuallyPositive(credits: int, priority: int, k: nat)
    requires priority > 0
    requires k >= PassesNeeded(credits)
    ensures CreditsAfter(credits, priority, k) > 0
    decreases k
  {
    if k > 0 {
      var next := RechargeCredit(credits, priority);
      assert PassesNeeded(next) <= k - 1;
      RechargeEventuallyPositive(next, priority, k - 1);
    }
  }

  /** A task's credits in the table after k passes follow CreditsAfter. */
  lemma {:induction false} RechargedTimesCredits(s: Sys, k: nat, i: nat)
    requires Shaped(s) && i < NR_TASKS && s.tasks[i].state != Unused
    ensures RechargedTimes(s, k).tasks[i].credits == CreditsAfter(s.tasks[i].credits, s.tasks[i].priority, k)
    decreases k
  {
    if k > 0 {
      RechargedTimesCredits(Recharged(s), k - 1, i);
    }
  }

  // ---------------------------------------------------------------------
  // switch_to

  /**
    switch_to(next) on CPU `cpu`: nothing when `next` is already current;
    otherwise the CPU takes `next`, the previous task goes from RUNNING to
    RUNNABLE (a SLEEPING or ZOMBIE one keeps its state), `next` becomes RUNNING.
  */
  function Switched(s: Sys, cpu: nat, next: Proc): (r: Sys)
    requires Shaped(s) && cpu < NCPU && ProcInRange(next)
    ensures Shaped(r)
  {
    var prev := s.cpus[cpu];
    if prev == next then s
    else
      var s1 := s.(cpus := s.cpus[cpu := next]);
      var p := Get(s1, prev);
      var s2 := if p.state == Running then Put(s1, prev, p.(state := Runnable)) else s1;
      Put(s2, next, Get(s2, next).(state := Running))
  }

  /** Switching to this CPU's idle task or to a candidate keeps the invariant. */
  lemma SwitchKeepsInvariant(s: Sys, cpu: nat, next: Proc)
    requires Invariant(s) && cpu < NCPU && ProcInRange(next)
    requires next == Idle(cpu) || (next.Slot? && Candidate(s, cpu, next.index))
    ensures Invariant(Switched(s, cpu, next))
    ensures Switched(s, cpu, next).cpus[cpu] == next
  {
    var r := Switched(s, cpu, next);
    if s.cpus[cpu] != next {
      assert r.cpus == s.cpus[cpu := next];
      if next.Slot? {
        assert FirstCpu(s.cpus, next) == -1;
      } else {
        assert next !in s.cpus;
      }
      ReplaceInDistinct(s.cpus, cpu, next);
    }
  }

  // ---------------------------------------------------------------------
  // wakeup_nolock

  predicate SleepsOn(t: Task, chan: Ptr)
  {
    t.state == Sleeping && t.chan == chan
  }

  function WokenTask(t: Task, chan: Ptr): Task
  {
    if SleepsOn(t, chan) then t.(state := Runnable) else t
  }

  /** Every task SLEEPING on `chan` becomes RUNNABLE; nothing else changes. */
  function Woken(ts: seq<Task>, chan: Ptr): (r: seq<Task>)
    ensures |r| == |ts|
  {
    seq(|ts|, i requires 0 <= i < |ts| => WokenTask(ts[i], chan))
  }

  /** The number of tasks sleeping on `chan`. */
  function SleepersOn(ts: seq<Task>, chan: Ptr): nat
  {
    if |ts| == 0 then 0
    else SleepersOn(ts[..|ts| - 1], chan) + (if SleepsOn(ts[|ts| - 1], chan) then 1 else 0)
  }

  /** Clearing the chan of a task that is not SLEEPING changes no channel's sleeper count. */
  lemma {:induction false} TidyKeepsSleepers(ts: seq<Task>, i: nat, c: Ptr)
    requires i < |ts| && ts[i].state != Sleeping
    ensures SleepersOn(ts[i := ts[i].(chan := Null)], c) == SleepersOn(ts, c)
    decreases |ts|
  {
    var us := ts[i := ts[i].(chan := Null)];
    if i == |ts| - 1 {
      assert us[..|us| - 1] == ts[..|ts| - 1];
    } else {
      assert us[..|us| - 1] == ts[..|ts| - 1][i := ts[i].(chan := Null)];
      TidyKeepsSleepers(ts[..|ts| - 1], i, c);
    }
  }

  /** The number of tasks in state `st`. */
  function CountState(ts: seq<Task>, st: TaskState): nat
  {
    if |ts| == 0 then 0
    else CountState(ts[..|ts| - 1], st) + (if ts[|ts| - 1].state == st then 1 else 0)
  }

  /**
    A wakeup moves exactly SleepersOn(chan) tasks from SLEEPING to RUNNABLE,
    and afterwards nobody sleeps on `chan` any more.
  */
  lemma {:induction false} WakeupMovesSleepers(ts: seq<Task>, chan: Ptr)
    ensures CountState(Woken(ts, chan), Runnable) == CountState(ts, Runnable) + SleepersOn(ts, chan)
    ensures CountState(Woken(ts, chan), Sleeping) + SleepersOn(ts, chan) == CountState(ts, Sleeping)
    ensures SleepersOn(Woken(ts, chan), chan) == 0
  {
    if |ts| > 0 {
      var n := |ts| - 1;
      assert Woken(ts, chan)[..n] == Woken(ts[..n], chan);
      WakeupMovesSleepers(ts[..n], chan);
    }
  }

  // ---------------------------------------------------------------------
  // reparent

  predicate IsChildOf(t: Task, p: Proc)
  {
    t.state != Unused && t.parent == TaskPtr(p)
  }

  function AdoptedTask(t: Task, p: Proc): Task
  {
    if IsChildOf(t, p) then t.(parent := TaskPtr(Slot(INIT))) else t
  }

  /** Every live child of `p` gets init_task as its parent; nothing else changes. */
  function Reparented(ts: seq<Task>, p: Proc): (r: seq<Task>)
    ensures |r| == |ts|
  {
    seq(|ts|, i requires 0 <= i < |ts| => AdoptedTask(ts[i], p))
  }

  /** The number of live children of `p`. */
  function ChildrenOf(ts: seq<Task>, p: Proc): nat
  {
    if |ts| == 0 then 0
    else ChildrenOf(ts[..|ts| - 1], p) + (if IsChildOf(ts[|ts| - 1], p) then 1 else 0)
  }

  /** `p` has a live child exactly when the count is positive. */
  lemma {:induction false} ChildrenOfPositive(ts: seq<Task>, p: Proc)
    ensures ChildrenOf(ts, p) > 0 <==> exists i :: 0 <= i < |ts| && IsChildOf(ts[i], p)
  {
    if |ts| > 0 {
      var n := |ts| - 1;
      ChildrenOfPositive(ts[..n], p);
      if ChildrenOf(ts[..n], p) > 0 {
        var i :| 0 <= i < n && IsChildOf(ts[..n][i], p);
        assert IsChildOf(ts[i], p);
      }
      if exists i :: 0 <= i < |ts| && IsChildOf(ts[i], p) {
        var i :| 0 <= i < |ts| && IsChildOf(ts[i], p);
        if i < n { assert IsChildOf(ts[..n][i], p); }
      }
    }
  }

  /**
    Reparenting away from a task other than init leaves it childless and
    adds its children to init's.
  */
  lemma {:induction false} ReparentHandsChildrenToInit(ts: seq<Task>, p: Proc)
    requires p != Slot(INIT)
    ensures ChildrenOf(Reparented(ts, p), p) == 0
    ensures ChildrenOf(Reparented(ts, p), Slot(INIT)) == ChildrenOf(ts, Slot(INIT)) + ChildrenOf(ts, p)
  {
    if |ts| > 0 {
      var n := |ts| - 1;
      assert Reparented(ts, p)[..n] == Reparented(ts[..n], p);
      ReparentHandsChildrenToInit(ts[..n], p);
    }
  }

  // ---------------------------------------------------------------------
  // freeproc, sleep, exit_process, copy_process

  /** freeproc: the slot becomes UNUSED with flags, killed, credits, chan, pid, xstate cleared. */
  function Freed(t: Task): Task
  {
    t.(state := Unused, flags := 0, killed := 0, credits := 0, chan := Null, pid := 0, xstate := 0)
  }

  /**
    The state part of sleep(chan) for CPU `cpu`'s current task: SLEEPING on
    `chan`, billed one credit, and the CPU is handed to its idle task.
  */
  function Slept(s: Sys, cpu: nat, chan: Ptr): (r: Sys)
    requires Shaped(s) && cpu < NCPU && s.cpus[cpu].Slot?
    ensures Shaped(r)
  {
    var i := s.cpus[cpu].index;
    var t := s.tasks[i];
    Sys(s.tasks[i := t.(state := Sleeping, chan := chan, credits := t.credits - 1)], s.idles, s.cpus[cpu := Idle(cpu)])
  }

  /** Taking a task off its CPU into a non-running state keeps the invariant. */
  lemma {:induction false} LeaveCpuKeepsInvariant(s: Sys, cpu: nat, t: Task, r: Sys)
    requires Invariant(s) && cpu < NCPU && s.cpus[cpu].Slot?
    requires t.state != Running && t.state != Unused && t.pid == s.cpus[cpu].index
    requires t.priority == s.tasks[s.cpus[cpu].index].priority
    requires r == Sys(s.tasks[s.cpus[cpu].index := t], s.idles, s.cpus[cpu := Idle(cpu)])
    ensures Invariant(r)
    ensures s.cpus[cpu] !in r.cpus
  {
    assert Idle(cpu) !in s.cpus;
    ReplaceInDistinct(s.cpus, cpu, Idle(cpu));
  }

  /**
    The task table of exit_process(status) before the exiting task is
    marked: its children go to init (init is woken if there were any) and
    its parent, as it stands after reparenting, is woken.
  */
  function ExitWakeups(s: Sys, cpu: nat): (ts: seq<Task>)
    requires Shaped(s) && cpu < NCPU && s.cpus[cpu].Slot?
    ensures |ts| == NR_TASKS
  {
    var me := s.cpus[cpu];
    var t1 := Reparented(s.tasks, me);
    var t2 := if ChildrenOf(s.tasks, me) > 0 then Woken(t1, TaskPtr(Slot(INIT))) else t1;
    Woken(t2, t2[me.index].parent)
  }

  /** Two versions of a task slot that differ at most in a wakeup. */
  predicate Kin(a: Task, b: Task)
  {
    && a.priority == b.priority && a.pid == b.pid && a.parent == b.parent
    && (a.state == Running <==> b.state == Running)
    && (a.state == Unused <==> b.state == Unused)
  }

  lemma WokenIsKin(ts: seq<Task>, chan: Ptr)
    ensures forall j :: 0 <= j < |ts| ==> Kin(Woken(ts, chan)[j], ts[j])
  {
  }

  /** The wakeups of exit_process touch only states, and never make or end a RUNNING or UNUSED slot. */
  lemma ExitWakeupsIsKin(s: Sys, cpu: nat)
    requires Shaped(s) && cpu < NCPU && s.cpus[cpu].Slot?
    ensures forall j :: 0 <= j < NR_TASKS ==> Kin(ExitWakeups(s, cpu)[j], Reparented(s.tasks, s.cpus[cpu])[j])
  {
    var me := s.cpus[cpu];
    var t1 := Reparented(s.tasks, me);
    var t2 := if ChildrenOf(s.tasks, me) > 0 then Woken(t1, TaskPtr(Slot(INIT))) else t1;
    WokenIsKin(t1, TaskPtr(Slot(INIT)));
    WokenIsKin(t2, t2[me.index].parent);
  }

  /**
    The state part of exit_process(status) for CPU `cpu`'s current task:
    after ExitWakeups the exit status is recorded, the task becomes a ZOMBIE
    and the CPU is handed to its idle task.
  */
  function Exited(s: Sys, cpu: nat, status: int): (r: Sys)
    requires Shaped(s) && cpu < NCPU && s.cpus[cpu].Slot?
    ensures Shaped(r)
  {
    var i := s.cpus[cpu].index;
    var ts := ExitWakeups(s, cpu);
    Sys(ts[i := ts[i].(xstate := status, state := Zombie)], s.idles, s.cpus[cpu := Idle(cpu)])
  }

  /**
    Exiting keeps the invariant and leaves the exiting task a ZOMBIE with the
    given status that no CPU holds.
  */
  lemma ExitKeepsInvariant(s: Sys, cpu: nat, status: int)
    requires Invariant(s) && cpu < NCPU && s.cpus[cpu].Slot?
    ensures Invariant(Exited(s, cpu, status))
    ensures Exited(s, cpu, status).tasks[s.cpus[cpu].index].state == Zombie
    ensures Exited(s, cpu, status).tasks[s.cpus[cpu].index].xstate == status
    ensures s.cpus[cpu] !in Exited(s, cpu, status).cpus
  {
    var i := s.cpus[cpu].index;
    var ts := ExitWakeups(s, cpu);
    assert s.tasks[i].state == Running by { assert s.cpus[cpu] == Slot(i); }
    ExitWakeupsIsKin(s, cpu);
    assert forall j :: 0 <= j < NR_TASKS ==>
      && ts[j].priority == s.tasks[j].priority && ts[j].pid == s.tasks[j].pid
      && (ts[j].state == Running <==> s.tasks[j].state == Running)
      && (ts[j].state == Unused <==> s.tasks[j].state == Unused);
    assert Invariant(Sys(ts, s.idles, s.cpus));
    LeaveCpuKeepsInvariant(Sys(ts, s.idles, s.cpus), cpu, ts[i].(xstate := status, state := Zombie), Exited(s, cpu, status));
  }

  /** After exiting, a task other than init has no live children left. */
  lemma ExitLeavesNoChildren(s: Sys, cpu: nat, status: int)
    requires Invariant(s) && cpu < NCPU && s.cpus[cpu].Slot? && s.cpus[cpu] != Slot(INIT)
    ensures ChildrenOf(Exited(s, cpu, status).tasks, s.cpus[cpu]) == 0
  {
    var me := s.cpus[cpu];
    var i := me.index;
    var t1 := Reparented(s.tasks, me);
    var ts := ExitWakeups(s, cpu);
    var r := Exited(s, cpu, status).tasks;
    ExitWakeupsIsKin(s, cpu);
    assert r == ts[i := ts[i].(xstate := status, state := Zombie)];
    assert forall j :: 0 <= j < NR_TASKS ==> (IsChildOf(r[j], me) ==> IsChildOf(t1[j], me));
    ReparentHandsChildrenToInit(s.tasks, me);
    ChildrenOfPositive(t1, me);
    ChildrenOfPositive(r, me);
  }

  /**
    Exiting wakes the parent when it waits: a parent task SLEEPING on its
    own task pointer (as wait() leaves it) is RUNNABLE afterwards.
  */
  lemma ExitWakesWaitingParent(s: Sys, cpu: nat, status: int, q: nat)
    requires Invariant(s) && cpu < NCPU && s.cpus[cpu].Slot? && s.cpus[cpu] != Slot(INIT) && q < NR_TASKS
    requires s.tasks[s.cpus[cpu].index].parent == TaskPtr(Slot(q))
    requires SleepsOn(s.tasks[q], TaskPtr(Slot(q)))
    ensures Exited(s, cpu, status).tasks[q].state == Runnable
  {
    var me := s.cpus[cpu];
    var i := me.index;
    var t1 := Reparented(s.tasks, me);
    var t2 := if ChildrenOf(s.tasks, me) > 0 then Woken(t1, TaskPtr(Slot(INIT))) else t1;
    var ts := Woken(t2, t2[i].parent);
    assert s.tasks[i].state == Running by { assert s.cpus[cpu] == Slot(i); }
    assert q != i;
    assert t1[i].parent == TaskPtr(Slot(q));
    assert t2[i].parent == TaskPtr(Slot(q));
    assert SleepsOn(t1[q], TaskPtr(Slot(q)));
    assert SleepsOn(t2[q], TaskPtr(Slot(q))) || t2[q].state == Runnable;
    assert ts[q].state == Runnable;
    assert Exited(s, cpu, status).tasks[q] == ts[q];
  }

  /** The task copy_process publishes: RUNNABLE, priority and credits inherited, parent the caller. */
  function Spawned(parent: Proc, priority: int, pid: nat, flags: int): Task
  {
    Task(Runnable, priority, priority, Null, TaskPtr(parent), pid, 0, flags, 0)
  }

  /** The slot copy_process examines at step `k` of its scan. */
  function ScanSlot(lastpid: nat, k: nat): (r: nat)
    ensures r < NR_TASKS
  {
    (lastpid + 1 + k) % NR_TASKS
  }

  /** The rotating scan visits every slot within NR_TASKS steps. */
  lemma ScanCoversAll(lastpid: nat, j: nat)
    requires lastpid < NR_TASKS && j < NR_TASKS
    ensures exists k :: 0 <= k < NR_TASKS && ScanSlot(lastpid, k) == j
  {
    var k := if j > lastpid then j - lastpid - 1 else j + NR_TASKS - lastpid - 1;
    assert ScanSlot(lastpid, k) == j;
  }

  datatype WaitOutcome = Reaped(pid: int) | NoChildren | Blocked

  // ---------------------------------------------------------------------
  // The tables as a class

  class Scheduler {
    /** task[NR_TASKS] */
    const task: array<Task>
    /** idle_tasks[NCPU] */
    const idle: array<Task>
    /** cpus[c].proc */
    const cpus: array<Proc>
    /** the hint copy_process starts its scan after */
    var lastpid: nat

    ghost function State(): Sys
      reads this, task, idle, cpus
    {
      Sys(task[..], idle[..], cpus[..])
    }

    ghost predicate Shape()
      reads this, task, idle, cpus
    {
      && task.Length == NR_TASKS && idle.Length == NCPU && cpus.Length == NCPU
      && task != idle
      && lastpid < NR_TASKS
      && Shaped(State())
    }

    ghost predicate Valid()
      reads this, task, idle, cpus
    {
      Shape() && Invariant(State())
    }

    /**
      sched_init: every slot UNUSED and zeroed, each CPU on its idle task
      (pid -1), and init_task (slot 0) RUNNABLE with priority 2 and no credits.
    */
    constructor (kthreadFlags: int)
      ensures Valid() && fresh(task) && fresh(idle) && fresh(cpus)
      ensures forall i :: 1 <= i < NR_TASKS ==> task[i] == ZERO_TASK
      ensures task[INIT] == Task(Runnable, 0, 2, Null, Null, 0, 0, kthreadFlags, 0)
      ensures forall c :: 0 <= c < NCPU ==> cpus[c] == Idle(c) && idle[c].pid == -1
    {
      var t := new Task[NR_TASKS](_ => ZERO_TASK);
      t[INIT] := Task(Runnable, 0, 2, Null, Null, 0, 0, kthreadFlags, 0);
      task := t;
      idle := new Task[NCPU](_ => ZERO_TASK.(pid := -1));
      cpus := new Proc[NCPU](c => Idle(c));
      lastpid := 0;
      new;
      assert forall i :: 0 <= i < NR_TASKS ==> Slot(i) !in cpus[..];
    }

    /** task_on_cpu(p): the index of the first CPU holding `p`, or -1. */
    method TaskOnCpu(p: Proc) returns (r: int)
      requires Shape()
      ensures r == FirstCpu(cpus[..], p)
      ensures r == -1 <==> p !in cpus[..]
      ensures r >= 0 ==> r < NCPU && cpus[r] == p
    {
      for c := 0 to NCPU
        invariant p !in cpus[..c]
      {
        if cpus[c] == p {
          r := c;
          assert FirstCpu(cpus[..], p) == c;
          return;
        }
        assert cpus[..c + 1] == cpus[..c] + [cpus[c]];
      }
      assert cpus[..NCPU] == cpus[..];
      r := -1;
    }

    /**
      One scan of schedule() on CPU `cpu`: whether any candidate exists, and
      the running maximum `max_cr` (starting at -1) with its index `next`.
    */
    method PickNext(cpu: nat) returns (next: nat, maxCr: int, hasRunnable: bool)
      requires Shape() && cpu < NCPU
      ensures next < NR_TASKS
      ensures hasRunnable <==> HasCandidate(State(), cpu)
      ensures maxCr > 0 <==> HasPositiveCandidate(State(), cpu)
      ensures maxCr > 0 ==> IsBest(State(), cpu, next)
      ensures maxCr <= 0 ==> forall i :: 0 <= i < NR_TASKS && Candidate(State(), cpu, i) ==> task[i].credits <= 0
    {
      ghost var s := State();
      maxCr, next, hasRunnable := -1, 0, false;
      var cur := cpus[cpu];
      for i := 0 to NR_TASKS
        invariant next < NR_TASKS && maxCr >= -1
        invariant hasRunnable <==> exists j :: 0 <= j < i && Candidate(s, cpu, j)
        invariant forall j :: 0 <= j < i && Candidate(s, cpu, j) ==> s.tasks[j].credits <= maxCr
        invariant maxCr > -1 ==> next < i && Candidate(s, cpu, next) && s.tasks[next].credits == maxCr
        invariant maxCr > -1 ==> forall j :: 0 <= j < next && Candidate(s, cpu, j) ==> s.tasks[j].credits < maxCr
      {
        var oncpu := TaskOnCpu(Slot(i));
        if oncpu != -1 && oncpu != cpu {
          continue;
        }
        if (Slot(i) == cur && task[i].state == Running) || task[i].state == Runnable {
          assert Candidate(s, cpu, i);
          hasRunnable := true;
          if task[i].credits > maxCr {
            maxCr := task[i].credits;
            next := i;
          }
        } else {
          assert !Candidate(s, cpu, i);
        }
      }
    }

    /** One recharge pass of schedule(): `credits = (credits >> 1) + priority` on every non-UNUSED task. */
    method Recharge()
      requires Shape()
      modifies task
      ensures Shape()
      ensures State() == Recharged(old(State()))
    {
      ghost var s := State();
      for i := 0 to NR_TASKS
        invariant Shape() && idle[..] == s.idles && cpus[..] == s.cpus
        invariant forall j :: 0 <= j < i ==> task[j] == RechargedTask(s.tasks[j])
        invariant forall j :: i <= j < NR_TASKS ==> task[j] == s.tasks[j]
      {
        if task[i].state != Unused {
          task[i] := task[i].(credits := task[i].credits / 2 + task[i].priority);
        }
      }
      assert task[..] == Recharged(s).tasks;
    }

    /** switch_to(next), state update only. */
    method SwitchTo(cpu: nat, next: Proc)
      requires Shape() && cpu < NCPU && ProcInRange(next)
      modifies task, idle, cpus
      ensures Shape()
      ensures State() == Switched(old(State()), cpu, next)
    {
      var prev := cpus[cpu];
      if prev == next {
        return;
      }
      cpus[cpu] := next;
      match prev {
        case Slot(i) =>
          if task[i].state == Running { task[i] := task[i].(state := Runnable); }
        case Idle(c) =>
          if idle[c].state == Running { idle[c] := idle[c].(state := Runnable); }
      }
      match next {
        case Slot(i) => task[i] := task[i].(state := Running);
        case Idle(c) => idle[c] := idle[c].(state := Running);
      }
    }

    /**
      schedule() on CPU `cpu`. While candidates exist but none has positive
      credits, every live task is recharged and the scan repeats; then the
      CPU switches to the best candidate, or to its idle task when there is
      no candidate at all (ScheduleOutcome).
    */
    method Schedule(cpu: nat) returns (ghost rounds: nat, ghost chosen: Proc)
      requires Valid() && cpu < NCPU
      modifies task, idle, cpus
      ensures Valid() && lastpid == old(lastpid)
      ensures ScheduleOutcome(old(State()), cpu, rounds, chosen, State())
      ensures cpus[cpu] == chosen
    {
      ghost var s0 := State();
      ghost var j: nat := 0;
      if HasCandidate(s0, cpu) {
        j :| 0 <= j < NR_TASKS && Candidate(s0, cpu, j);
      }
      rounds := 0;
      while true
        invariant Shape() && lastpid == old(lastpid)
        invariant State() == RechargedTimes(s0, rounds)
        invariant ScheduleLoop(s0, cpu, rounds, j)
        decreases PassesNeeded(task[j].credits)
      {
        var done;
        done, chosen := ScheduleRound(cpu, s0, rounds, j);
        if done {
          return;
        }
        rounds := rounds + 1;
      }
    }

    /**
      One round of the schedule() loop: a scan, then either the switch that
      ends schedule() (`done`) or a recharge pass.
    */
    method ScheduleRound(cpu: nat, ghost s0: Sys, ghost rounds: nat, ghost j: nat) returns (done: bool, ghost chosen: Proc)
      requires Shape() && cpu < NCPU && Invariant(s0)
      requires State() == RechargedTimes(s0, rounds)
      requires ScheduleLoop(s0, cpu, rounds, j)
      modifies task, idle, cpus
      ensures Shape() && lastpid == old(lastpid)
      ensures done ==> Valid() && ScheduleOutcome(s0, cpu, rounds, chosen, State()) && cpus[cpu] == chosen
      ensures !done ==>
                && State() == RechargedTimes(s0, rounds + 1)
                && ScheduleLoop(s0, cpu, rounds + 1, j)
                && PassesNeeded(task[j].credits) < old(PassesNeeded(task[j].credits))
    {
      RechargedTimesKeeps(s0, rounds, cpu);
      var next, maxCr, hasRunnable := PickNext(cpu);
      if maxCr > 0 {
        chosen := Slot(next);
        ScheduleExit(s0, cpu, rounds, j, chosen);
        SwitchTo(cpu, Slot(next));
        return true, chosen;
      }
      if !hasRunnable {
        chosen := Idle(cpu);
        ScheduleExit(s0, cpu, rounds, j, chosen);
        SwitchTo(cpu, Idle(cpu));
        return true, chosen;
      }
      RechargeStep(s0, rounds, cpu, j);
      Recharge();
      return false, Idle(cpu);
    }

    /** Sets the credits of task control block `p`. */
    method SetCredits(p: Proc, v: int)
      requires Shape() && ProcInRange(p)
      modifies task, idle
      ensures Shape()
      ensures State() == Put(old(State()), p, Get(old(State()), p).(credits := v))
      ensures Invariant(old(State())) ==> Invariant(State())
    {
      match p {
        case Slot(i) => task[i] := task[i].(credits := v);
        case Idle(c) => idle[c] := idle[c].(credits := v);
      }
    }

    /** yield(): the current task gives up its remaining credits, then schedule(). */
    method Yield(cpu: nat) returns (ghost rounds: nat, ghost chosen: Proc)
      requires Valid() && cpu < NCPU
      modifies task, idle, cpus
      ensures Valid() && ProcInRange(chosen)
      ensures var cur := old(cpus[cpu]);
              var s1 := Put(old(State()), cur, old(Get(State(), cur)).(credits := 0));
              State() == Switched(RechargedTimes(s1, rounds), cpu, chosen)
      ensures var cur := old(cpus[cpu]);
              var s1 := Put(old(State()), cur, old(Get(State(), cur)).(credits := 0));
              ScheduleOutcome(s1, cpu, rounds, chosen, State())
    {
      SetCredits(cpus[cpu], 0);
      rounds, chosen := Schedule(cpu);
    }

    /**
      timer_tick(): a normal task (pid >= 0) is billed one credit and keeps
      the CPU while credits remain positive; otherwise, and always for the
      idle task, credits are set to 0 and schedule() runs.
    */
    method TimerTick(cpu: nat) returns (rescheduled: bool, ghost rounds: nat, ghost chosen: Proc)
      requires Valid() && cpu < NCPU
      modifies task, idle, cpus
      ensures Valid() && ProcInRange(chosen)
      ensures var t := old(Get(State(), cpus[cpu]));
              !rescheduled <==> t.pid >= 0 && t.credits - 1 > 0
      ensures var cur := old(cpus[cpu]);
              var t := old(Get(State(), cpus[cpu]));
              !rescheduled ==> State() == Put(old(State()), cur, t.(credits := t.credits - 1))
      ensures var cur := old(cpus[cpu]);
              var t := old(Get(State(), cpus[cpu]));
              rescheduled ==> State() == Switched(RechargedTimes(Put(old(State()), cur, t.(credits := 0)), rounds), cpu, chosen)
      ensures var cur := old(cpus[cpu]);
              var t := old(Get(State(), cpus[cpu]));
              rescheduled ==> ScheduleOutcome(Put(old(State()), cur, t.(credits := 0)), cpu, rounds, chosen, State())
    {
      var cur := cpus[cpu];
      var t := match cur case Slot(i) => task[i] case Idle(c) => idle[c];
      if t.pid >= 0 && t.credits - 1 > 0 {
        SetCredits(cur, t.credits - 1);
        return false, 0, cur;
      }
      SetCredits(cur, 0);
      rounds, chosen := Schedule(cpu);
      rescheduled := true;
    }

    /**
      wakeup_nolock(chan), with the contract of its doc comment (the loop
      body itself is a placeholder): every task SLEEPING on `chan` becomes
      RUNNABLE, UNUSED slots are skipped, the number woken is returned, and
      the scheduler is not called.
    */
    method WakeupNolock(chan: Ptr) returns (cnt: nat)
      requires Shape()
      modifies task
      ensures Shape()
      ensures task[..] == Woken(old(task[..]), chan)
      ensures cnt == SleepersOn(old(task[..]), chan)
    {
      ghost var ts := task[..];
      cnt := 0;
      for i := 0 to NR_TASKS
        invariant forall j :: 0 <= j < i ==> task[j] == WokenTask(ts[j], chan)
        invariant forall j :: i <= j < NR_TASKS ==> task[j] == ts[j]
        invariant cnt == SleepersOn(ts[..i], chan)
      {
        assert ts[..i + 1][..i] == ts[..i];
        if task[i].state == Unused {
          continue;
        }
        if task[i].state == Sleeping && task[i].chan == chan {
          task[i] := task[i].(state := Runnable);
          cnt := cnt + 1;
        }
      }
      assert ts[..NR_TASKS] == ts;
      assert task[..] == Woken(ts, chan);
    }

    /** wakeup(chan): wakeup_nolock under sched_lock. */
    method Wakeup(chan: Ptr) returns (cnt: nat)
      requires Valid()
      modifies task
      ensures Valid()
      ensures task[..] == Woken(old(task[..]), chan)
      ensures cnt == SleepersOn(old(task[..]), chan)
    {
      cnt := WakeupNolock(chan);
      forall i | 0 <= i < NR_TASKS
        ensures task[i].state == Running <==> old(task[i]).state == Running
      {
      }
    }

    /**
      reparent(p): every live task whose parent is `p` gets init_task as
      parent; returns how many; nothing else changes.
    */
    method Reparent(p: Proc) returns (cnt: nat)
      requires Shape()
      modifies task
      ensures Shape()
      ensures task[..] == Reparented(old(task[..]), p)
      ensures cnt == ChildrenOf(old(task[..]), p)
    {
      ghost var ts := task[..];
      cnt := 0;
      for i := 0 to NR_TASKS
        invariant forall j :: 0 <= j < i ==> task[j] == AdoptedTask(ts[j], p)
        invariant forall j :: i <= j < NR_TASKS ==> task[j] == ts[j]
        invariant cnt == ChildrenOf(ts[..i], p)
      {
        assert ts[..i + 1][..i] == ts[..i];
        if task[i].state == Unused {
          continue;
        }
        if task[i].parent == TaskPtr(p) {
          task[i] := task[i].(parent := TaskPtr(Slot(INIT)));
          cnt := cnt + 1;
        }
      }
      assert ts[..NR_TASKS] == ts;
      assert task[..] == Reparented(ts, p);
    }

    /** freeproc(task[i]). */
    method Freeproc(i: nat)
      requires Shape() && i < NR_TASKS
      modifies task
      ensures Shape()
      ensures task[..] == old(task[..])[i := Freed(old(task[i]))]
    {
      task[i] := task[i].(state := Unused, flags := 0, killed := 0, credits := 0, chan := Null, pid := 0, xstate := 0);
    }

    /**
      The state part of sleep(chan) as its comments describe it (the code
      there is a placeholder): the current task sleeps on `chan`, is billed
      one credit, and the CPU is handed to its idle task.
    */
    method Sleep(cpu: nat, chan: Ptr)
      requires Valid() && cpu < NCPU && cpus[cpu].Slot?
      modifies task, cpus
      ensures Valid()
      ensures State() == Slept(old(State()), cpu, chan)
    {
      var i := cpus[cpu].index;
      ghost var s := State();
      assert task[i].state == Running by { assert cpus[..][cpu] == Slot(i); }
      task[i] := task[i].(state := Sleeping, chan := chan, credits := task[i].credits - 1);
      cpus[cpu] := Idle(cpu);
      LeaveCpuKeepsInvariant(s, cpu, task[i], State());
    }

    /**
      The tail of sleep() once cpu_switch_to returns to the woken task, now
      RUNNING on `cpu` again: its chan is cleared and nothing else changes.
      Since the task is not SLEEPING, no wakeup on any channel sees the
      difference.
    */
    method SleepReturn(cpu: nat)
      requires Valid() && cpu < NCPU && cpus[cpu].Slot?
      modifies task
      ensures Valid()
      ensures var i := old(cpus[cpu].index);
              task[..] == old(task[..])[i := old(task[i]).(chan := Null)]
      ensures forall c :: SleepersOn(task[..], c) == SleepersOn(old(task[..]), c)
    {
      var i := cpus[cpu].index;
      ghost var ts := task[..];
      assert task[i].state == Running by { assert cpus[..][cpu] == Slot(i); }
      task[i] := task[i].(chan := Null);
      assert task[..] == ts[i := ts[i].(chan := Null)];
      forall c {
        TidyKeepsSleepers(ts, i, c);
      }
    }

    /**
      One pass of wait() by CPU `cpu`'s current task: the first ZOMBIE child
      (lowest slot) is freed and its pid returned; with no live child at all
      the result is -1 (NoChildren); otherwise the caller sleeps on its own
      task pointer (Blocked) and repeats the pass once woken.
    */
    method Wait(cpu: nat) returns (r: WaitOutcome, ghost slot: nat)
      requires Valid() && cpu < NCPU && cpus[cpu].Slot?
      modifies task, cpus
      ensures Valid()
      ensures var me := old(cpus[cpu]);
              r == NoChildren <==> forall i :: 0 <= i < NR_TASKS ==> !IsChildOf(old(task[i]), me)
      ensures r == NoChildren ==> State() == old(State())
      ensures var me := old(cpus[cpu]);
              r.Reaped? ==>
                && slot < NR_TASKS && IsChildOf(old(task[slot]), me) && old(task[slot]).state == Zombie
                && (forall k :: 0 <= k < slot ==> !(IsChildOf(old(task[k]), me) && old(task[k]).state == Zombie))
                && r.pid == old(task[slot]).pid == slot
                && task[..] == old(task[..])[slot := Freed(old(task[slot]))]
                && cpus[..] == old(cpus[..])
      ensures var me := old(cpus[cpu]);
              r == Blocked ==>
                && (forall i :: 0 <= i < NR_TASKS ==> !(IsChildOf(old(task[i]), me) && old(task[i]).state == Zombie))
                && State() == Slept(old(State()), cpu, TaskPtr(me))
    {
      var me := cpus[cpu];
      var haveKids := false;
      slot := 0;
      for i := 0 to NR_TASKS
        invariant haveKids <==> exists k :: 0 <= k < i && IsChildOf(task[k], me)
        invariant forall k :: 0 <= k < i ==> !(IsChildOf(task[k], me) && task[k].state == Zombie)
      {
        if task[i].state == Unused {
          continue;
        }
        if task[i].parent == TaskPtr(me) {
          haveKids := true;
          if task[i].state == Zombie {
            var pid := task[i].pid;
            ghost var s := State();
            Freeproc(i);
            forall k | 0 <= k < NR_TASKS
              ensures task[k].state == Running <==> s.tasks[k].state == Running
            {
            }
            return Reaped(pid), i;
          }
        }
      }
      if !haveKids {
        return NoChildren, 0;
      }
      Sleep(cpu, TaskPtr(me));
      return Blocked, 0;
    }

    /**
      The state part of exit_process(status) for CPU `cpu`'s current task,
      which must not be init_task ("init exiting" is a panic). Switching the
      CPU to its idle task follows the comment at the placeholder.
    */
    method ExitProcess(cpu: nat, status: int)
      requires Valid() && cpu < NCPU && cpus[cpu].Slot? && cpus[cpu] != Slot(INIT)
      modifies task, cpus
      ensures Valid()
      ensures State() == Exited(old(State()), cpu, status)
    {
      ghost var s := State();
      var me := cpus[cpu];
      var i := me.index;
      var n := Reparent(me);
      ghost var t1 := task[..];
      assert t1 == Reparented(s.tasks, me);
      if n > 0 {
        var _ := WakeupNolock(TaskPtr(Slot(INIT)));
      }
      ghost var t2 := task[..];
      assert t2 == if ChildrenOf(s.tasks, me) > 0 then Woken(t1, TaskPtr(Slot(INIT))) else t1;
      var _ := WakeupNolock(task[i].parent);
      assert task[..] == ExitWakeups(s, cpu);
      task[i] := task[i].(xstate := status, state := Zombie);
      cpus[cpu] := Idle(cpu);
      assert State() == Exited(s, cpu, status);
      ExitKeepsInvariant(s, cpu, status);
    }

    /**
      copy_process(flags) by CPU `cpu`'s current task: scans the slots from
      (lastpid+1) % NR_TASKS on; with no UNUSED slot it returns -1 and changes
      nothing; otherwise the first UNUSED slot in that order becomes the new
      task (pid = slot index, credits = priority = the caller's priority,
      parent = the caller), lastpid is set to it, and, as the last step that
      the comment calls for, the task is made RUNNABLE.
    */
    method CopyProcess(cpu: nat, flags: int) returns (pid: int, ghost steps: nat)
      requires Valid() && cpu < NCPU && cpus[cpu].Slot?
      modifies this, task
      ensures Valid()
      ensures pid == -1 <==> forall j :: 0 <= j < NR_TASKS ==> old(task[j]).state != Unused
      ensures pid == -1 ==> State() == old(State()) && lastpid == old(lastpid)
      ensures pid >= 0 ==>
                && steps < NR_TASKS && pid == ScanSlot(old(lastpid), steps)
                && old(task[pid]).state == Unused
                && (forall k :: 0 <= k < steps ==> old(task[..])[ScanSlot(old(lastpid), k)].state != Unused)
                && task[..] == old(task[..])[pid := Spawned(old(cpus[cpu]), old(task[cpus[cpu].index].priority), pid, flags)]
                && lastpid == pid
      ensures idle[..] == old(idle[..]) && cpus[..] == old(cpus[..])
    {
      var cur := cpus[cpu];
      var found := false;
      steps := 0;
      pid := -1;
      var k := 0;
      while k < NR_TASKS
        invariant 0 <= k <= NR_TASKS
        invariant forall m :: 0 <= m < k ==> task[ScanSlot(lastpid, m)].state != Unused
      {
        var candidate := (lastpid + 1 + k) % NR_TASKS;
        if task[candidate].state == Unused {
          pid := candidate;
          steps := k;
          break;
        }
        k := k + 1;
      }
      if pid == -1 {
        forall j | 0 <= j < NR_TASKS ensures task[j].state != Unused {
          ScanCoversAll(lastpid, j);
        }
        return;
      }
      ghost var s := State();
      lastpid := pid;
      var prio := task[cur.index].priority;
      task[pid] := Task(Runnable, prio, prio, Null, TaskPtr(cur), pid, 0, flags, 0);
      assert Slot(pid) !in cpus[..] by {
        assert s.tasks[pid].state != Running;
      }
      forall i | 0 <= i < NR_TASKS
        ensures task[i].state == Running <==> Slot(i) in cpus[..]
      {
        if i != pid { assert task[i] == s.tasks[i]; }
      }
    }
  }

  /** Any number of recharge passes keeps the invariant and the candidates. */
  lemma {:induction false} RechargedTimesKeeps(s: Sys, k: nat, cpu: nat)
    requires Invariant(s) && cpu < NCPU
    ensures Invariant(RechargedTimes(s, k))
    ensures forall i :: 0 <= i < NR_TASKS ==> (Candidate(RechargedTimes(s, k), cpu, i) <==> Candidate(s, cpu, i))
    decreases k
  {
    if k > 0 {
      RechargeKeepsCandidates(s, cpu);
      RechargedTimesKeeps(Recharged(s), k - 1, cpu);
    }
  }

  /**
    A recharge pass of schedule(), taken because no candidate has positive
    credits, brings candidate `j` strictly closer to positive credits.
  */
  lemma RechargeStep(s0: Sys, k: nat, cpu: nat, j: nat)
    requires Invariant(s0) && cpu < NCPU && ScheduleLoop(s0, cpu, k, j)
    requires HasCandidate(RechargedTimes(s0, k), cpu)
    requires forall i :: 0 <= i < NR_TASKS && Candidate(RechargedTimes(s0, k), cpu, i) ==>
               RechargedTimes(s0, k).tasks[i].credits <= 0
    ensures j < NR_TASKS
    ensures RechargedTimes(s0, k + 1) == Recharged(RechargedTimes(s0, k))
    ensures PassesNeeded(RechargedTimes(s0, k + 1).tasks[j].credits) < PassesNeeded(RechargedTimes(s0, k).tasks[j].credits)
    ensures ScheduleLoop(s0, cpu, k + 1, j)
  {
    var s := RechargedTimes(s0, k);
    RechargedTimesKeeps(s0, k, cpu);
    RechargedTimesShift(s0, k);
    assert HasCandidate(s0, cpu);
    assert Candidate(s, cpu, j);
    assert !HasPositiveCandidate(s, cpu);
    RechargeRaises(s.tasks[j].credits, s.tasks[j].priority);
  }

  /**
    What schedule() on CPU `cpu` achieves from state `s0`: `rounds` recharge
    passes happen, each because candidates existed but none had positive
    credits; the CPU then switches to `chosen`, which is the best candidate
    after those passes, or the CPU's idle task with no pass when there is no
    candidate at all.
  */
  ghost predicate ScheduleOutcome(s0: Sys, cpu: nat, rounds: nat, chosen: Proc, s: Sys)
    requires Shaped(s0) && cpu < NCPU
  {
    && ProcInRange(chosen)
    && s == Switched(RechargedTimes(s0, rounds), cpu, chosen)
    && (!HasCandidate(s0, cpu) ==> rounds == 0 && chosen == Idle(cpu))
    && (HasCandidate(s0, cpu) ==>
          && chosen.Slot?
          && IsBest(RechargedTimes(s0, rounds), cpu, chosen.index)
          && (forall r :: 0 <= r < rounds ==> !HasPositiveCandidate(RechargedTimes(s0, r), cpu)))
  }

  /**
    The loop invariant of schedule(): every pass so far was taken because
    no candidate had positive credits, `j` is a candidate whenever one
    exists, and without candidates no pass happens.
  */
  ghost predicate ScheduleLoop(s0: Sys, cpu: nat, rounds: nat, j: nat)
    requires Shaped(s0) && cpu < NCPU
  {
    && (forall r :: 0 <= r < rounds ==> !HasPositiveCandidate(RechargedTimes(s0, r), cpu))
    && (HasCandidate(s0, cpu) ==> j < NR_TASKS && Candidate(s0, cpu, j))
    && (!HasCandidate(s0, cpu) ==> rounds == 0)
  }

  /** The two ways schedule() leaves its loop both establish ScheduleOutcome and keep the invariant. */
  lemma ScheduleExit(s0: Sys, cpu: nat, rounds: nat, j: nat, chosen: Proc)
    requires Invariant(s0) && cpu < NCPU
    requires ScheduleLoop(s0, cpu, rounds, j)
    requires || (chosen == Idle(cpu) && !HasCandidate(RechargedTimes(s0, rounds), cpu))
             || (chosen.Slot? && IsBest(RechargedTimes(s0, rounds), cpu, chosen.index))
    ensures ProcInRange(chosen)
    ensures ScheduleOutcome(s0, cpu, rounds, chosen, Switched(RechargedTimes(s0, rounds), cpu, chosen))
    ensures Invariant(Switched(RechargedTimes(s0, rounds), cpu, chosen))
    ensures Switched(RechargedTimes(s0, rounds), cpu, chosen).cpus[cpu] == chosen
  {
    RechargedTimesKeeps(s0, rounds, cpu);
    SwitchKeepsInvariant(RechargedTimes(s0, rounds), cpu, chosen);
  }

  /** One pass moved to the front: RechargedTimes(s, k+1) is a pass applied after k passes. */
  lemma {:induction false} RechargedTimesShift(s: Sys, k: nat)
    requires Shaped(s)
    ensures RechargedTimes(s, k + 1) == Recharged(RechargedTimes(s, k))
    decreases k
  {
    if k > 0 {
      RechargedTimesShift(Recharged(s), k - 1);
    }
  }
}
