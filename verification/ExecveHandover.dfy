/**
  Threads of one process that are created, exit and run execve concurrently: the execve thread
  waits until it is alone and then becomes the main thread.

  A critical section under the task-set lock is one step.  Signals do not take that lock, so
  delivering SIGKILL is two steps: queueing it, then waking the thread's registered waiter.
 */
module ExecveHandover {
  import opened TaskSets

  type Tid = nat

  /** Where the thread inside execve stands. */
  datatype ExecPc =
    | Outside
    | Checking(t: Task)   // about to test, under the lock, whether it is alone
    | Armed(t: Task)      // not alone; its new waiter is registered for signals; holds the lock
    | Parked(t: Task)     // the waiter is registered with the task set too; waiting
    | Resumed(t: Task)    // woken up; about to drop both registrations and take the lock
    | Alone(t: Task)      // the wait returned Ok
    | Promoted(t: Task)   // it is the main thread
    | Failing(t: Task)    // the wait or the loading of the program returned an error

  datatype Proc = Proc(
    pid: Tid,
    group: Tasks,
    pc: ExecPc,
    execveWaker: bool,      // the task set has a waker
    signalWaker: bool,      // the execve thread has a signalled waker
    woken: bool,            // a wake-up of the current waiter is pending
    killed: set<Task>,      // SIGKILL is queued
    waking: set<Task>,      // SIGKILL is queued, waking the thread is still to be done
    tid: map<Task, Tid>,    // the thread id of every thread there ever was
    table: map<Tid, Task>,  // the thread table
    leaving: set<Task>,     // exited threads still to be removed from the thread table
    usedTids: set<Tid>,
    lastReports: nat)       // history: how often `remove_exited` returned true

  datatype Action =
    | Clone(caller: Task, t: Task, newTid: Tid)
    | ThreadExit(t: Task, wholeGroup: bool)
    | Unlist(t: Task)
    | QueueKill(t: Task)
    | WakeKilled(t: Task)
    | OtherSignal
    | StartExecve(t: Task)
    | Check
    | Park
    | WakeUp
    | Relock
    | Promote
    | LoadFails
    | FinishExecve

  function FirstState(pid: Tid, t: Task): Proc {
    Proc(pid, Tasks([t], false, false, false), Outside, false, false, false, {}, {},
         map[t := pid], map[pid := t], {}, {pid}, 0)
  }

  /** The lock is held from the test until the thread parks. */
  predicate LockFree(p: Proc) { !p.pc.Armed? }

  predicate Executing(p: Proc, t: Task) { !p.pc.Outside? && p.pc.t == t }

  predicate Enabled(p: Proc, a: Action) {
    match a
    case Clone(caller, t, newTid) =>
      LockFree(p) && caller in Live(p.group) && !Executing(p, caller) && t !in p.tid && newTid !in p.usedTids
    case ThreadExit(t, _) => LockFree(p) && t in Live(p.group) && !Executing(p, t)
    case Unlist(t) => t in p.leaving
    case QueueKill(t) => t in Live(p.group)
    case WakeKilled(t) => t in p.waking
    case OtherSignal => true
    case StartExecve(t) => LockFree(p) && t in Live(p.group) && !Executing(p, t)
    case Check => p.pc.Checking?
    case Park => p.pc.Armed?
    case WakeUp => p.pc.Parked? && p.woken
    case Relock => p.pc.Resumed?
    case Promote => p.pc.Alone?
    case LoadFails => p.pc.Promoted?
    case FinishExecve => p.pc.Promoted? || p.pc.Failing?
  }

  /** The assertions and unwraps that step `a` passes do not fail. */
  predicate NoPanic(p: Proc, a: Action)
    requires Enabled(p, a)
  {
    match a
    case ThreadExit(t, _) => t in p.group.tasks && (t == p.group.tasks[0] ==> !p.group.exitedMain) && t in p.tid
    case Unlist(t) => t in p.tid
    case StartExecve(t) => t in p.group.tasks
    case Check => p.pc.t in p.tid && (OthersExited(p.group, p.tid[p.pc.t] == p.pid) || !p.signalWaker)
    case Park => p.pc.t in p.killed || !p.execveWaker
    case Promote =>
      && p.pc.t in p.tid
      && (p.tid[p.pc.t] != p.pid ==>
            && p.group.exitedMain && p.group.inExecve
            && |p.group.tasks| == 2 && p.group.tasks[1] == p.pc.t
            && p.pid in p.table && p.tid[p.pc.t] in p.table)
    case _ => true
  }

  /** SIGKILL for every task of the vector but `t`. */
  function Others(s: Tasks, t: Task): set<Task> { (set u | u in s.tasks) - {t} }

  /** The task set an exiting thread leaves: it may first mark the whole group as exiting. */
  function AfterExit(s: Tasks, t: Task, wholeGroup: bool): Tasks
    requires t in s.tasks
  {
    RemoveExited(if wholeGroup && !s.exitedGroup && !s.inExecve then s.(exitedGroup := true) else s, t)
  }

  function Do(p: Proc, a: Action): Proc
    requires Enabled(p, a) && NoPanic(p, a)
  {
    var s := p.group;
    match a
    case Clone(_, t, newTid) =>
      p.(group := Insert(s, t), tid := p.tid[t := newTid], table := p.table[newTid := t],
         usedTids := p.usedTids + {newTid})
    case ThreadExit(t, wholeGroup) =>
      var starts := wholeGroup && !s.exitedGroup && !s.inExecve;
      var s' := AfterExit(s, t, wholeGroup);
      p.(group := s',
         killed := if starts then p.killed + Others(s, t) else p.killed,
         woken := p.woken || p.execveWaker,
         leaving := if p.tid[t] != p.pid then p.leaving + {t} else p.leaving,
         lastReports := p.lastReports + if IsLast(s') then 1 else 0)
    case Unlist(t) => p.(table := p.table - {p.tid[t]}, leaving := p.leaving - {t})
    case QueueKill(t) => p.(killed := p.killed + {t}, waking := p.waking + {t})
    case WakeKilled(t) =>
      p.(waking := p.waking - {t}, woken := p.woken || (p.signalWaker && Executing(p, t)))
    case OtherSignal => p.(woken := p.woken || p.signalWaker)
    case StartExecve(t) =>
      if s.exitedGroup || s.inExecve then p   // EAGAIN
      else p.(group := s.(inExecve := true), pc := Checking(t), killed := p.killed + Others(s, t))
    case Check =>
      if OthersExited(s, p.tid[p.pc.t] == p.pid) then p.(pc := Alone(p.pc.t))
      else p.(pc := Armed(p.pc.t), woken := false, signalWaker := true)
    case Park =>
      if p.pc.t in p.killed then p.(pc := Failing(p.pc.t), signalWaker := false)
      else p.(pc := Parked(p.pc.t), execveWaker := true)
    case WakeUp => p.(pc := Resumed(p.pc.t), woken := false)
    case Relock => p.(pc := Checking(p.pc.t), signalWaker := false, execveWaker := false)
    case Promote =>
      var t := p.pc.t;
      if p.tid[t] == p.pid then p.(pc := Promoted(t))
      else p.(pc := Promoted(t), group := SwapMain(s), tid := p.tid[t := p.pid],
              table := (p.table - {p.pid, p.tid[t]})[p.pid := t])
    case LoadFails => p.(pc := Failing(p.pc.t))
    case FinishExecve =>
      p.(group := s.(inExecve := false), pc := Outside,
         killed := if p.pc.Failing? then p.killed + {p.pc.t} else p.killed)
  }

  /** A run of enabled steps from a process with one thread; it stops short of a panicking step. */
  ghost predicate IsRun(trace: seq<Proc>, actions: seq<Action>) {
    && |trace| == |actions| + 1
    && (exists pid, t :: trace[0] == FirstState(pid, t))
    && (forall i :: 0 <= i < |actions| ==>
          && Enabled(trace[i], actions[i])
          && (NoPanic(trace[i], actions[i]) ==> trace[i + 1] == Do(trace[i], actions[i])))
  }

  // ----- The invariant -----

  ghost predicate SetOk(p: Proc) {
    && WellFormed(p.group)
    && !(p.group.exitedGroup && p.group.inExecve)
    && p.lastReports == (if Live(p.group) == {} then 1 else 0)
  }

  ghost predicate TableOk(p: Proc) {
    && WellFormed(p.group)
    && p.pid in p.usedTids
    && (forall t :: t in p.tid ==> p.tid[t] in p.usedTids)
    && (forall t :: t in p.group.tasks ==> t in p.tid && p.tid[t] in p.table && p.table[p.tid[t]] == t)
    && p.tid[p.group.tasks[0]] == p.pid
    && (forall t :: t in p.leaving ==>
          t in p.tid && t !in p.group.tasks && (p.tid[t] in p.table ==> p.table[p.tid[t]] == t))
    && (forall k :: k in p.table ==> k in p.usedTids)
  }

  ghost predicate ExecOk(p: Proc) {
    && (p.group.inExecve <==> !p.pc.Outside?)
    && (!p.pc.Outside? ==> p.pc.t in Live(p.group))
    && (p.execveWaker <==> p.pc.Parked? || p.pc.Resumed?)
    && (p.signalWaker <==> p.pc.Armed? || p.pc.Parked? || p.pc.Resumed?)
    && (p.pc.Alone? || p.pc.Promoted? ==> Live(p.group) == {p.pc.t})
    && (p.pc.Promoted? ==> p.group.tasks == [p.pc.t] && !p.group.exitedMain)
  }

  /** No wake-up is lost, whether it comes from an exiting thread or from SIGKILL. */
  ghost predicate WakeOk(p: Proc) {
    && (p.pc.Armed? || (p.pc.Parked? && !p.woken) ==> Live(p.group) != {p.pc.t})
    && (p.pc.Parked? && p.pc.t in p.killed ==> p.woken || p.pc.t in p.waking)
  }

  /** Whoever must die has been told so. */
  ghost predicate KillOk(p: Proc) {
    && (p.group.exitedGroup ==> Live(p.group) <= p.killed)
    && (!p.pc.Outside? ==> Live(p.group) - {p.pc.t} <= p.killed)
  }

  ghost predicate Inv(p: Proc) {
    SetOk(p) && TableOk(p) && ExecOk(p) && WakeOk(p) && KillOk(p)
  }

  lemma InitInv(pid: Tid, t: Task)
    ensures Inv(FirstState(pid, t))
  {
    assert t in Live(FirstState(pid, t).group);
  }

  lemma CloneInv(p: Proc, a: Action)
    requires Inv(p) && a.Clone? && Enabled(p, a)
    ensures Inv(Do(p, a))
  {
    InsertLive(p.group, a.t);
    assert a.caller in Live(Do(p, a).group);
  }

  /** The vector loses at most the task `t`, which then still has to leave the thread table. */
  lemma ThreadExitTable(p: Proc, q: Proc, t: Task)
    requires TableOk(p) && t in p.group.tasks
    requires q.pid == p.pid && q.tid == p.tid && q.table == p.table && q.usedTids == p.usedTids
    requires WellFormed(q.group) && q.group.tasks[0] == p.group.tasks[0]
    requires forall u :: u in q.group.tasks <==> u in p.group.tasks && (u != t || t == p.group.tasks[0])
    requires q.leaving == if p.tid[t] != p.pid then p.leaving + {t} else p.leaving
    ensures TableOk(q)
  {
  }

  lemma AfterExitLive(s: Tasks, t: Task, wholeGroup: bool)
    requires WellFormed(s) && t in Live(s)
    ensures t == s.tasks[0] ==> !s.exitedMain
    ensures var s' := AfterExit(s, t, wholeGroup);
            && WellFormed(s') && s'.tasks[0] == s.tasks[0]
            && Live(s') == Live(s) - {t}
            && (IsLast(s') <==> Live(s') == {})
            && (forall u :: u in s'.tasks <==> u in s.tasks && (u != t || t == s.tasks[0]))
  {
    var s1 := if wholeGroup && !s.exitedGroup && !s.inExecve then s.(exitedGroup := true) else s;
    assert Live(s1) == Live(s);
    RemoveExitedLive(s1, t);
    RemoveExitedTasks(s1, t);
  }

  lemma ThreadExitRest(p: Proc, a: Action)
    requires SetOk(p) && ExecOk(p) && WakeOk(p) && KillOk(p)
    requires a.ThreadExit? && Enabled(p, a) && NoPanic(p, a)
    ensures var q := Do(p, a);
            SetOk(q) && ExecOk(q) && WakeOk(q) && KillOk(q) && Live(q.group) == Live(p.group) - {a.t}
  {
    AfterExitLive(p.group, a.t, a.wholeGroup);
  }

  lemma ThreadExitInv(p: Proc, a: Action)
    requires Inv(p) && a.ThreadExit? && Enabled(p, a)
    ensures NoPanic(p, a) && Inv(Do(p, a))
    ensures Live(Do(p, a).group) == Live(p.group) - {a.t}
  {
    AfterExitLive(p.group, a.t, a.wholeGroup);
    ThreadExitTable(p, Do(p, a), a.t);
    ThreadExitRest(p, a);
  }

  lemma UnlistInv(p: Proc, a: Action)
    requires Inv(p) && a.Unlist? && Enabled(p, a)
    ensures NoPanic(p, a) && Inv(Do(p, a))
  {
  }

  lemma CheckInv(p: Proc)
    requires Inv(p) && p.pc.Checking?
    ensures NoPanic(p, Check) && Inv(Do(p, Check))
  {
    assert p.tid[p.pc.t] == p.pid <==> p.pc.t == p.group.tasks[0];
    OthersExitedIffAlone(p.group, p.pc.t);
  }

  lemma PromoteInv(p: Proc)
    requires Inv(p) && p.pc.Alone?
    ensures NoPanic(p, Promote) && Inv(Do(p, Promote))
  {
    var s, t := p.group, p.pc.t;
    assert p.tid[t] == p.pid <==> t == s.tasks[0];
    if t == s.tasks[0] {
      OthersExitedIffAlone(s, t);
    } else {
      SwapMainLive(s, t);
    }
  }

  lemma FlagInv(p: Proc, a: Action)
    requires Inv(p) && (a.StartExecve? || a.FinishExecve?) && Enabled(p, a)
    ensures NoPanic(p, a) && Inv(Do(p, a))
  {
    assert Live(Do(p, a).group) == Live(p.group);
  }

  lemma SignalInv(p: Proc, a: Action)
    requires Inv(p) && (a.QueueKill? || a.WakeKilled? || a.OtherSignal?) && Enabled(p, a)
    ensures NoPanic(p, a) && Inv(Do(p, a))
  {
  }

  lemma WaitInv(p: Proc, a: Action)
    requires Inv(p) && (a.Park? || a.WakeUp? || a.Relock? || a.LoadFails?) && Enabled(p, a)
    ensures NoPanic(p, a) && Inv(Do(p, a))
  {
  }

  lemma ActionInv(p: Proc, a: Action)
    requires Inv(p) && Enabled(p, a)
    ensures NoPanic(p, a) && Inv(Do(p, a))
  {
    match a
    case Clone(_, _, _) => CloneInv(p, a);
    case ThreadExit(_, _) => ThreadExitInv(p, a);
    case Unlist(_) => UnlistInv(p, a);
    case Check => CheckInv(p);
    case Promote => PromoteInv(p);
    case StartExecve(_) => FlagInv(p, a);
    case FinishExecve => FlagInv(p, a);
    case QueueKill(_) => SignalInv(p, a);
    case WakeKilled(_) => SignalInv(p, a);
    case OtherSignal => SignalInv(p, a);
    case _ => WaitInv(p, a);
  }

  lemma {:induction false} RunInv(trace: seq<Proc>, actions: seq<Action>, i: nat)
    requires IsRun(trace, actions) && i < |trace|
    ensures Inv(trace[i])
    decreases i
  {
    if i == 0 {
      var pid, t :| trace[0] == FirstState(pid, t);
      InitInv(pid, t);
    } else {
      RunInv(trace, actions, i - 1);
      ActionInv(trace[i - 1], actions[i - 1]);
    }
  }

  // ----- What the hand-over guarantees -----

  /** `u` exits and leaves the execve thread alone. */
  ghost predicate LeavesAlone(p: Proc, a: Action) {
    p.pc.Parked? && a.ThreadExit? && Live(p.group) == {p.pc.t, a.t}
  }

  /**
    Every reached state, in every interleaving: no assertion or unwrap fails, index 0 is the task
    registered under the process id, the execve thread is alive, all other live threads have been
    sent SIGKILL, a parked thread without a pending wake-up still waits for a live thread, and once
    the wait has succeeded it is alone, then the main thread.
   */
  lemma HandoverSafety(trace: seq<Proc>, actions: seq<Action>, i: nat)
    requires IsRun(trace, actions) && i < |actions|
    ensures var p := trace[i];
            && NoPanic(p, actions[i]) && trace[i + 1] == Do(p, actions[i])
            && p.group.tasks != [] && p.pid in p.table && p.table[p.pid] == p.group.tasks[0]
            && !(p.group.exitedGroup && p.group.inExecve)
            && (p.group.inExecve <==> !p.pc.Outside?)
            && (!p.pc.Outside? ==> p.pc.t in Live(p.group) && Live(p.group) <= p.killed + {p.pc.t})
            && (p.pc.Parked? && !p.woken ==> Live(p.group) != {p.pc.t})
            && (p.pc.Parked? && p.pc.t in p.killed ==> p.woken || p.pc.t in p.waking)
            && (p.pc.Alone? || p.pc.Promoted? ==> Live(p.group) == {p.pc.t})
            && (p.pc.Promoted? ==> p.group.tasks == [p.pc.t] && p.table[p.pid] == p.pc.t)
  {
    RunInv(trace, actions, i);
    ActionInv(trace[i], actions[i]);
  }

  /** During execve the live threads only become fewer, and the last one to go wakes the waiter. */
  lemma NoInsertionDuringExecve(trace: seq<Proc>, actions: seq<Action>, i: nat)
    requires IsRun(trace, actions) && i < |actions| && trace[i].group.inExecve
    ensures Live(trace[i + 1].group) <= Live(trace[i].group)
    ensures LeavesAlone(trace[i], actions[i]) ==> trace[i + 1].woken && Live(trace[i + 1].group) == {trace[i].pc.t}
  {
    var p, a := trace[i], actions[i];
    RunInv(trace, actions, i);
    ActionInv(p, a);
    if a.ThreadExit? {
      ThreadExitInv(p, a);
    } else if a.Promote? && p.tid[p.pc.t] != p.pid {
      SwapMainLive(p.group, p.pc.t);
    }
  }

  /** `remove_exited` reports the last exit when the live count reaches zero, once per process. */
  lemma {:induction false} LastExitOnce(trace: seq<Proc>, actions: seq<Action>, i: nat, j: nat)
    requires IsRun(trace, actions) && i <= j < |trace|
    ensures trace[i].lastReports == (if Live(trace[i].group) == {} then 1 else 0)
    ensures trace[i].lastReports <= trace[j].lastReports <= 1
    ensures Live(trace[i].group) == {} ==> Live(trace[j].group) == {}
    decreases j - i
  {
    RunInv(trace, actions, i);
    RunInv(trace, actions, j);
    if i < j {
      ActionInv(trace[i], actions[i]);
      LastExitOnce(trace, actions, i + 1, j);
    }
  }
}
