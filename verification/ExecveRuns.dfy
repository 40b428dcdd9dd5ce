/**
  What the calls of threads achieve over every run: who is alive, who was sent SIGKILL, what the
  thread table holds, and when execve succeeds.
 */
module ExecveRuns {
  import opened TaskSets
  import opened ExecveHandover

  lemma RunStep(trace: seq<Proc>, actions: seq<Action>, i: nat)
    requires IsRun(trace, actions) && i < |actions|
    ensures Inv(trace[i]) && Enabled(trace[i], actions[i]) && NoPanic(trace[i], actions[i])
    ensures trace[i + 1] == Do(trace[i], actions[i]) && Inv(trace[i + 1])
  {
    RunInv(trace, actions, i);
    ActionInv(trace[i], actions[i]);
  }

  /** Neither exit_group nor execve is under way, so threads may be created and execve may start. */
  predicate Open(p: Proc) { !p.group.exitedGroup && !p.group.inExecve }

  // ----- The execve call -----

  /** How the call proceeds from step to step, in terms of who is alive and who was sent SIGKILL. */
  lemma CallProceeds(trace: seq<Proc>, actions: seq<Action>, i: nat)
    requires IsRun(trace, actions) && i < |actions|
    ensures var p, q := trace[i], trace[i + 1];
            match actions[i]
            case StartExecve(t) =>
              if Open(p) then q.pc == Checking(t) && Live(q.group) - {t} <= q.killed && !Open(q) else q == p
            case Check => q.pc == if Live(p.group) == {p.pc.t} then Alone(p.pc.t) else Armed(p.pc.t)
            case Park => q.pc == if p.pc.t in p.killed then Failing(p.pc.t) else Parked(p.pc.t)
            case WakeUp => q.pc == Resumed(p.pc.t)
            case Relock => q.pc == Checking(p.pc.t)
            case Promote => q.pc == Promoted(p.pc.t)
            case LoadFails => q.pc == Failing(p.pc.t)
            case FinishExecve => q.pc == Outside && Open(q)
            case _ => q.pc == p.pc
  {
    RunStep(trace, actions, i);
    var p := trace[i];
    if actions[i].Check? {
      assert p.tid[p.pc.t] == p.pid <==> p.pc.t == p.group.tasks[0];
      OthersExitedIffAlone(p.group, p.pc.t);
    }
  }

  /**
    The promotion: the thread that was left alone is the only and main task, registered under the
    process id.  Its old id is gone from the thread table; all other entries are kept.
   */
  lemma PromoteHandsOver(trace: seq<Proc>, actions: seq<Action>, i: nat)
    requires IsRun(trace, actions) && i < |actions| && actions[i].Promote?
    ensures var p, q := trace[i], trace[i + 1];
            var t := p.pc.t;
            && t in p.tid && t in q.tid
            && q.pc == Promoted(t) && q.group.tasks == [t] && Live(q.group) == {t}
            && q.pid == p.pid && q.tid[t] == p.pid && p.pid in q.table && q.table[p.pid] == t
            && q.table.Keys == p.table.Keys - (if p.tid[t] == p.pid then {} else {p.tid[t]})
            && (forall k :: k in q.table && k != p.pid ==> q.table[k] == p.table[k])
            && (forall u :: u in p.tid && u != t ==> u in q.tid && q.tid[u] == p.tid[u])
  {
    RunStep(trace, actions, i);
    var p := trace[i];
    var s, t := p.group, p.pc.t;
    assert p.tid[t] == p.pid <==> t == s.tasks[0];
    if t == s.tasks[0] {
      OthersExitedIffAlone(s, t);
    } else {
      SwapMainLive(s, t);
    }
  }

  /** What makes a call fail: SIGKILL before it parks, or a program that cannot be loaded. */
  predicate Fails(p: Proc, a: Action, t: Task) {
    !p.pc.Outside? && p.pc.t == t && (a.LoadFails? || (a.Park? && t in p.killed))
  }

  /** A call that is about to return an error has met SIGKILL or a program that cannot be loaded. */
  lemma {:induction false} FailsOnlyIf(trace: seq<Proc>, actions: seq<Action>, i: nat)
    requires IsRun(trace, actions) && i < |trace| && trace[i].pc.Failing?
    ensures exists j :: 0 <= j < i && Fails(trace[j], actions[j], trace[i].pc.t)
    decreases i
  {
    if i > 0 {
      CallProceeds(trace, actions, i - 1);
      if trace[i - 1].pc.Failing? {
        FailsOnlyIf(trace, actions, i - 1);
      } else {
        assert Fails(trace[i - 1], actions[i - 1], trace[i].pc.t);
      }
    }
  }

  /** Steps from any state on. */
  ghost predicate AreSteps(trace: seq<Proc>, actions: seq<Action>) {
    && |trace| == |actions| + 1
    && (forall i :: 0 <= i < |actions| ==>
          && Enabled(trace[i], actions[i]) && NoPanic(trace[i], actions[i])
          && trace[i + 1] == Do(trace[i], actions[i]))
  }

  lemma Prepend(p: Proc, a: Action, trace: seq<Proc>, actions: seq<Action>)
    requires AreSteps(trace, actions) && Enabled(p, a) && NoPanic(p, a) && trace[0] == Do(p, a)
    ensures AreSteps([p] + trace, [a] + actions)
  {
    var trace', actions' := [p] + trace, [a] + actions;
    forall i | 0 <= i < |actions'|
      ensures Enabled(trace'[i], actions'[i]) && NoPanic(trace'[i], actions'[i])
      ensures trace'[i + 1] == Do(trace'[i], actions'[i])
    {
      if i > 0 { assert actions'[i] == actions[i - 1] && trace'[i] == trace[i - 1] && trace'[i + 1] == trace[i]; }
    }
  }

  /** How many steps the thread still takes when it is alone. */
  function StepsLeft(pc: ExecPc): nat {
    match pc
    case Parked(_) => 4
    case Resumed(_) => 3
    case Checking(_) => 2
    case Alone(_) => 1
    case _ => 0
  }

  /** The next step of the thread inside execve. */
  function OwnAction(pc: ExecPc): Action {
    match pc
    case Checking(_) => Check
    case Armed(_) => Park
    case Parked(_) => WakeUp
    case Resumed(_) => Relock
    case Alone(_) => Promote
    case _ => FinishExecve
  }

  lemma OwnStepAlone(p: Proc)
    requires Inv(p) && StepsLeft(p.pc) > 0 && Live(p.group) == {p.pc.t}
    ensures var a := OwnAction(p.pc);
            && Enabled(p, a) && NoPanic(p, a) && Inv(Do(p, a))
            && !Do(p, a).pc.Outside? && Do(p, a).pc.t == p.pc.t && Live(Do(p, a).group) == {p.pc.t}
            && Do(p, a).pid == p.pid
            && if p.pc.Alone? then Do(p, a).pc == Promoted(p.pc.t) else StepsLeft(Do(p, a).pc) == StepsLeft(p.pc) - 1
  {
    ActionInv(p, OwnAction(p.pc));
    if p.pc.Checking? {
      assert p.tid[p.pc.t] == p.pid <==> p.pc.t == p.group.tasks[0];
      OthersExitedIffAlone(p.group, p.pc.t);
    }
  }

  /** A call succeeds once the other threads have exited: its own steps lead to the promotion. */
  lemma {:induction false} AloneSucceeds(p: Proc) returns (trace: seq<Proc>, actions: seq<Action>)
    requires Inv(p) && (StepsLeft(p.pc) > 0 || p.pc.Promoted?) && Live(p.group) == {p.pc.t}
    ensures AreSteps(trace, actions) && trace[0] == p && |actions| == StepsLeft(p.pc)
    ensures var t, q := p.pc.t, trace[|actions|];
            && q.pc == Promoted(t) && q.group.tasks == [t]
            && t in q.tid && q.tid[t] == p.pid && p.pid in q.table && q.table[p.pid] == t
    decreases StepsLeft(p.pc)
  {
    if p.pc.Promoted? {
      trace, actions := [p], [];
    } else {
      var a := OwnAction(p.pc);
      OwnStepAlone(p);
      trace, actions := AloneSucceeds(Do(p, a));
      Prepend(p, a, trace, actions);
      trace, actions := [p] + trace, [a] + actions;
    }
  }

  /**
    Until then it is not stuck: it has a step of its own, or it is parked and some other thread is
    alive, was sent SIGKILL and may exit.
   */
  lemma NeverStuck(trace: seq<Proc>, actions: seq<Action>, i: nat)
    requires IsRun(trace, actions) && i < |trace| && !trace[i].pc.Outside?
    ensures var p := trace[i];
            || Enabled(p, OwnAction(p.pc))
            || (p.pc.Parked? && exists u ::
                  u in Live(p.group) && u != p.pc.t && u in p.killed && Enabled(p, ThreadExit(u, false)))
  {
    RunInv(trace, actions, i);
    var p := trace[i];
    if p.pc.Parked? && !p.woken {
      var others := Live(p.group) - {p.pc.t};
      assert Live(p.group) == others + {p.pc.t};
      var u :| u in others;
      assert Enabled(p, ThreadExit(u, false));
    }
  }

  // ----- Threads, signals and the thread table -----

  /** Who is alive: creating a thread adds it unless that is refused, an exit takes it away, nothing else does. */
  lemma LiveChanges(trace: seq<Proc>, actions: seq<Action>, i: nat)
    requires IsRun(trace, actions) && i < |actions|
    ensures var p, q := trace[i], trace[i + 1];
            match actions[i]
            case Clone(_, t, _) => Live(q.group) == if Open(p) then Live(p.group) + {t} else Live(p.group)
            case ThreadExit(t, _) => Live(q.group) == Live(p.group) - {t}
            case _ => Live(q.group) == Live(p.group)
  {
    RunStep(trace, actions, i);
    var p, a := trace[i], actions[i];
    match a
    case Clone(_, t, _) => InsertLive(p.group, t);
    case ThreadExit(_, _) => ThreadExitInv(p, a);
    case Promote => PromoteHandsOver(trace, actions, i);
    case _ =>
  }

  /** Step `a` sends `t` SIGKILL: directly, as another thread of a group exit or of execve, or as a failed call. */
  predicate Kills(p: Proc, a: Action, t: Task) {
    match a
    case QueueKill(u) => t == u
    case StartExecve(u) => Open(p) && t != u
    case ThreadExit(u, wholeGroup) => wholeGroup && Open(p) && t != u
    case FinishExecve => p.pc == Failing(t)
    case _ => false
  }

  /** Who was sent SIGKILL: nobody is forgotten, and a live thread was sent it exactly by such a step. */
  lemma WhoIsKilled(trace: seq<Proc>, actions: seq<Action>, i: nat, t: Task)
    requires IsRun(trace, actions) && i < |actions| && t in Live(trace[i].group)
    ensures t in trace[i + 1].killed <==> t in trace[i].killed || Kills(trace[i], actions[i], t)
  {
    RunStep(trace, actions, i);
  }

  lemma StaysClosed(trace: seq<Proc>, actions: seq<Action>, i: nat)
    requires IsRun(trace, actions) && i < |actions|
    requires trace[i].group.exitedGroup || (actions[i].ThreadExit? && actions[i].wholeGroup && Open(trace[i]))
    ensures trace[i + 1].group.exitedGroup && Live(trace[i + 1].group) <= trace[i + 1].killed
    ensures Live(trace[i + 1].group) <= Live(trace[i].group)
    ensures actions[i].ThreadExit? ==> actions[i].t !in Live(trace[i + 1].group)
  {
    RunStep(trace, actions, i);
    LiveChanges(trace, actions, i);
  }

  /** A group exit closes the process for good; whoever is alive then was sent SIGKILL. */
  lemma {:induction false} GroupExitLasts(trace: seq<Proc>, actions: seq<Action>, i: nat, j: nat)
    requires IsRun(trace, actions) && i < j < |trace|
    requires actions[i].ThreadExit? && actions[i].wholeGroup && Open(trace[i])
    ensures trace[j].group.exitedGroup && Live(trace[j].group) <= Live(trace[i].group) - {actions[i].t}
    ensures Live(trace[j].group) <= trace[j].killed
    decreases j
  {
    if j > i + 1 { GroupExitLasts(trace, actions, i, j - 1); }
    StaysClosed(trace, actions, j - 1);
  }

  /** The thread table: creation adds the new id, removal takes exactly that id, only the promotion rewrites it. */
  lemma TableChanges(trace: seq<Proc>, actions: seq<Action>, i: nat)
    requires IsRun(trace, actions) && i < |actions| && !actions[i].Promote?
    ensures var p, q := trace[i], trace[i + 1];
            match actions[i]
            case Clone(_, t, newTid) =>
              && newTid !in p.table && q.table.Keys == p.table.Keys + {newTid} && q.table[newTid] == t
              && (forall k :: k in p.table ==> q.table[k] == p.table[k])
            case Unlist(t) =>
              && t in p.tid && q.table.Keys == p.table.Keys - {p.tid[t]}
              && (forall k :: k in q.table ==> q.table[k] == p.table[k])
            case _ => q.table == p.table
  {
    RunStep(trace, actions, i);
  }

  /** A thread other than the main one that exits still has to leave the table; the process id stays listed. */
  lemma ExitIsUnlisted(trace: seq<Proc>, actions: seq<Action>, i: nat)
    requires IsRun(trace, actions) && i < |actions| && actions[i].ThreadExit?
    ensures var p, q, t := trace[i], trace[i + 1], actions[i].t;
            && (t == p.group.tasks[0] ==> q.leaving == p.leaving && t in q.group.tasks)
            && (t != p.group.tasks[0] ==> Enabled(q, Unlist(t)) && t !in q.group.tasks)
            && (p.execveWaker ==> q.woken)
  {
    RunStep(trace, actions, i);
    AfterExitLive(trace[i].group, actions[i].t, actions[i].wholeGroup);
  }

  /** SIGKILL of the thread inside execve ends its wait. */
  lemma KillWakes(trace: seq<Proc>, actions: seq<Action>, i: nat)
    requires IsRun(trace, actions) && i < |actions| && trace[i].pc.Parked?
    ensures actions[i] == QueueKill(trace[i].pc.t) ==> Enabled(trace[i + 1], WakeKilled(trace[i].pc.t))
    ensures actions[i] == WakeKilled(trace[i].pc.t) || actions[i].OtherSignal? ==> Enabled(trace[i + 1], WakeUp)
  {
    RunStep(trace, actions, i);
  }
}
