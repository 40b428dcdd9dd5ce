/**
  The set of tasks of a process: its vector of tasks, where index 0 is the main task even after
  the main thread has exited, and the exit and execve flags.
 */
module TaskSets {
  type Task = nat

  datatype Tasks = Tasks(
    tasks: seq<Task>,
    exitedMain: bool,
    exitedGroup: bool,
    inExecve: bool)

  /** The tasks whose thread has not exited: all but the main task once that has exited. */
  function Live(s: Tasks): set<Task> {
    (set t | t in s.tasks) - (if s.exitedMain && s.tasks != [] then {s.tasks[0]} else {})
  }

  /** The vector has a main task and no task twice. */
  ghost predicate WellFormed(s: Tasks) {
    && s.tasks != []
    && (forall i, j :: 0 <= i < j < |s.tasks| ==> s.tasks[i] != s.tasks[j])
  }

  /** `Vec::swap_remove` */
  function SwapRemove(s: seq<Task>, i: nat): (r: seq<Task>)
    requires i < |s|
    ensures |r| == |s| - 1
  {
    s[i := s[|s| - 1]][..|s| - 1]
  }

  lemma SwapRemoved(s: seq<Task>, i: nat)
    requires 0 < i < |s| && forall j, k :: 0 <= j < k < |s| ==> s[j] != s[k]
    ensures var r := SwapRemove(s, i);
            && r != [] && r[0] == s[0]
            && (forall j, k :: 0 <= j < k < |r| ==> r[j] != r[k])
            && (forall t :: t in r <==> t in s && t != s[i])
  {
    var r := SwapRemove(s, i);
    forall t | t in s && t != s[i] ensures t in r {
      var j :| 0 <= j < |s| && s[j] == t;
      assert r[if j == |s| - 1 then i else j] == t;
    }
    forall t | t in r ensures t in s && t != s[i] {
      var j :| 0 <= j < |r| && r[j] == t;
      assert t == if j == i then s[|s| - 1] else s[j];
    }
  }

  // ----- Transitions -----

  function Insert(s: Tasks, t: Task): Tasks {
    if s.exitedGroup || s.inExecve then s else s.(tasks := s.tasks + [t])
  }

  /** The first position of `t`. */
  function Position(s: seq<Task>, t: Task): (i: nat)
    requires t in s
    ensures i < |s| && s[i] == t
  {
    if s[0] == t then 0 else 1 + Position(s[1..], t)
  }

  function RemoveExited(s: Tasks, t: Task): Tasks
    requires t in s.tasks
  {
    var i := Position(s.tasks, t);
    if i == 0 then s.(exitedMain := true) else s.(tasks := SwapRemove(s.tasks, i))
  }

  /** What `remove_exited` reports: no task is left alive. */
  predicate IsLast(s: Tasks) {
    s.exitedMain && |s.tasks| == 1
  }

  function SwapMain(s: Tasks): Tasks
    requires s.tasks != []
  {
    s.(tasks := SwapRemove(s.tasks, 0), exitedMain := false)
  }

  /** Inserting adds a live task, or is refused; the main task stays. */
  lemma InsertLive(s: Tasks, t: Task)
    requires WellFormed(s) && t !in s.tasks
    ensures var s' := Insert(s, t);
            && WellFormed(s') && s'.tasks[0] == s.tasks[0]
            && Live(s') == if s.exitedGroup || s.inExecve then Live(s) else Live(s) + {t}
  {
  }

  /** "The main thread has exited and one task is left" says that no task is alive. */
  lemma LastIffNoneLive(s: Tasks)
    requires WellFormed(s)
    ensures IsLast(s) <==> Live(s) == {}
  {
    if |s.tasks| > 1 { assert s.tasks[1] in Live(s); }
    if !s.exitedMain { assert s.tasks[0] in Live(s); }
  }

  /** Exiting removes exactly that task from the live ones; the main task keeps index 0. */
  lemma RemoveExitedLive(s: Tasks, t: Task)
    requires WellFormed(s) && t in Live(s)
    ensures t == s.tasks[0] ==> !s.exitedMain
    ensures var s' := RemoveExited(s, t);
            && WellFormed(s') && s'.tasks[0] == s.tasks[0]
            && Live(s') == Live(s) - {t}
            && (IsLast(s') <==> Live(s') == {})
  {
    var i := Position(s.tasks, t);
    if i > 0 { SwapRemoved(s.tasks, i); }
    LastIffNoneLive(RemoveExited(s, t));
  }

  /** Exiting takes at most that task out of the vector, and only if it is not the main task. */
  lemma RemoveExitedTasks(s: Tasks, t: Task)
    requires WellFormed(s) && t in s.tasks
    ensures var s' := RemoveExited(s, t);
            && WellFormed(s') && s'.tasks[0] == s.tasks[0]
            && (forall u :: u in s'.tasks <==> u in s.tasks && (u != t || t == s.tasks[0]))
  {
    var i := Position(s.tasks, t);
    if i > 0 { SwapRemoved(s.tasks, i); }
  }

  /** The test the execve thread makes: it is the only live task. */
  predicate OthersExited(s: Tasks, isMain: bool) {
    if isMain then |s.tasks| == 1 else |s.tasks| == 2 && s.exitedMain
  }

  lemma OthersExitedIffAlone(s: Tasks, t: Task)
    requires WellFormed(s) && t in Live(s)
    ensures OthersExited(s, t == s.tasks[0]) <==> Live(s) == {t}
  {
    if t == s.tasks[0] {
      if |s.tasks| > 1 { assert s.tasks[1] in Live(s); }
    } else {
      var i := Position(s.tasks, t);
      if !s.exitedMain { assert s.tasks[0] in Live(s); }
      if |s.tasks| > 2 { assert s.tasks[if i == 1 then 2 else 1] in Live(s); }
      if |s.tasks| == 2 { assert i == 1; }
    }
  }

  /** The surviving thread becomes the main task. */
  lemma SwapMainLive(s: Tasks, t: Task)
    requires WellFormed(s) && Live(s) == {t} && t != s.tasks[0]
    ensures OthersExited(s, false) && s.tasks[1] == t
    ensures SwapMain(s).tasks == [t] && WellFormed(SwapMain(s)) && Live(SwapMain(s)) == {t}
  {
    OthersExitedIffAlone(s, t);
    assert s.tasks[1] in Live(s);
  }

  // ----- The object -----

  method FindPosition(tasks: seq<Task>, t: Task) returns (position: nat)
    requires t in tasks
    ensures position == Position(tasks, t)
    ensures position < |tasks| && tasks[position] == t && t !in tasks[..position]
  {
    position := 0;
    while tasks[position] != t
      invariant position < |tasks| && t in tasks[position..] && t !in tasks[..position]
      invariant position + Position(tasks[position..], t) == Position(tasks, t)
      decreases |tasks| - position
    {
      assert tasks[position..][1..] == tasks[position + 1..];
      position := position + 1;
    }
  }

  class TaskSet {
    var tasks: seq<Task>
    var hasExitedMain: bool
    var hasExitedGroup: bool
    var inExecve: bool
    var wakerSet: bool       // an execve waker is registered
    var wakerWoken: bool     // and has been woken
    var exitEvents: seq<nat> // the thread ids whose exit the observers were notified of

    function View(): Tasks
      reads this
    {
      Tasks(tasks, hasExitedMain, hasExitedGroup, inExecve)
    }

    constructor ()
      ensures View() == Tasks([], false, false, false) && !wakerSet && exitEvents == []
    {
      tasks, hasExitedMain, hasExitedGroup, inExecve := [], false, false, false;
      wakerSet, wakerWoken, exitEvents := false, false, [];
    }

    /** Refused during execve or after exit_group. */
    method InsertTask(t: Task) returns (ok: bool)
      modifies this
      ensures ok <==> !old(hasExitedGroup) && !old(inExecve)
      ensures View() == Insert(old(View()), t)
      ensures wakerSet == old(wakerSet) && wakerWoken == old(wakerWoken) && exitEvents == old(exitEvents)
    {
      if hasExitedGroup || inExecve {
        return false;
      }
      tasks := tasks + [t];
      return true;
    }

    /**
      The main task stays in the vector; any other exited task leaves it, and the observers are
      notified of its exit.  A registered execve waker is woken.  Reports whether no task is left
      alive.
     */
    method RemoveExitedTask(t: Task, tid: nat) returns (isLast: bool)
      requires WellFormed(View()) && t in Live(View())
      modifies this
      ensures View() == RemoveExited(old(View()), t)
      ensures isLast <==> Live(View()) == {}
      ensures wakerSet == old(wakerSet) && wakerWoken == (old(wakerWoken) || wakerSet)
      ensures exitEvents == old(exitEvents) + (if t == old(tasks[0]) then [] else [tid])
    {
      RemoveExitedLive(View(), t);
      var position := FindPosition(tasks, t);
      if position == 0 {
        hasExitedMain := true;
      } else {
        tasks := SwapRemove(tasks, position);
        exitEvents := exitEvents + [tid];
      }
      if wakerSet {
        wakerWoken := true;
      }
      isLast := hasExitedMain && |tasks| == 1;
    }

    /** Drops the exited main task; the remaining thread takes its place and its id. */
    method SwapMainTask(pid: nat, tid: nat, ghost t: Task)
      requires WellFormed(View()) && Live(View()) == {t} && t != tasks[0]
      modifies this
      ensures View() == SwapMain(old(View())) && tasks == [t]
      ensures exitEvents == old(exitEvents) + [pid, tid]
    {
      SwapMainLive(View(), t);
      tasks := SwapRemove(tasks, 0);
      hasExitedMain := false;
      exitEvents := exitEvents + [pid, tid];
    }
  }
}
