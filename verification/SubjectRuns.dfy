/**
  What registering, unregistering and notifying achieve over every run of the synchronized subject.
 */
module SubjectRuns {
  import opened SyncSubject
  import opened Wrappers

  lemma RunStep(trace: seq<Subject>, actions: seq<Action>, i: nat)
    requires IsRun(trace, actions) && i < |actions|
    ensures Inv(trace[i]) && Enabled(trace[i], actions[i])
    ensures trace[i + 1] == Do(trace[i], actions[i]) && Inv(trace[i + 1])
  {
    RunInv(trace, actions, i);
    ActionInv(trace[i], actions[i]);
  }

  /** The action registers or unregisters `o`, or frees it. */
  predicate Touches(a: Action, o: Observer) {
    (a.Register? || a.Unregister? || a.Free?) && a.o == o
  }

  // ----- Registered observers -----

  /** `o` is registered with `f` and alive; at most `h` has not yet returned from registering it. */
  ghost predicate Registered(s: Subject, h: Thread, o: Observer, f: Filter) {
    && o in s.table && s.table[o] == f && o !in s.dead
    && (forall g :: g in s.pcs && s.pcs[g] == Inserted(o) ==> g == h)
  }

  lemma Registers(trace: seq<Subject>, actions: seq<Action>, i: nat, h: Thread, o: Observer, f: Filter)
    requires IsRun(trace, actions) && i < |actions| && actions[i] == Register(h, o, f) && o !in trace[i].dead
    ensures Registered(trace[i + 1], h, o, f)
  {
    RunStep(trace, actions, i);
  }

  lemma StaysRegistered(trace: seq<Subject>, actions: seq<Action>, i: nat, h: Thread, o: Observer, f: Filter)
    requires IsRun(trace, actions) && i < |actions| && !Touches(actions[i], o) && Registered(trace[i], h, o, f)
    ensures Registered(trace[i + 1], h, o, f)
  {
    RunStep(trace, actions, i);
  }

  lemma {:induction false} RegisteredUntil(
    trace: seq<Subject>, actions: seq<Action>, i: nat, j: nat, h: Thread, o: Observer, f: Filter)
    requires IsRun(trace, actions) && i < j < |trace| && actions[i] == Register(h, o, f) && o !in trace[i].dead
    requires forall k :: i < k < j ==> !Touches(actions[k], o)
    ensures Registered(trace[j], h, o, f)
    decreases j
  {
    if j == i + 1 {
      Registers(trace, actions, i, h, o, f);
    } else {
      RegisteredUntil(trace, actions, i, j - 1, h, o, f);
      StaysRegistered(trace, actions, j - 1, h, o, f);
    }
  }

  /**
    From registering to being notified, in any interleaving: an observer that was registered for
    the event, by a call that had returned when the notification began, and that was not touched
    since, has been reached when the notification has returned.
   */
  lemma RegisteredIsNotified(
    trace: seq<Subject>, actions: seq<Action>, i: nat, j: nat, k: nat, h: Thread, o: Observer, f: Filter,
    g: Thread, e: Event)
    requires IsRun(trace, actions) && i < j < k < |trace|
    requires actions[i] == Register(h, o, f) && o !in trace[i].dead && e in f
    requires forall m :: i < m < k ==> !Touches(actions[m], o)
    requires actions[j] == Load(g, e) && h in trace[j].pcs && trace[j].pcs[h] != Inserted(o)
    requires forall m :: j < m < k ==> !Begins(actions[m], g)
    requires g in trace[k].pcs && trace[k].pcs[g].Returned?
    ensures o in trace[k].pcs[g].delivered
  {
    RegisteredUntil(trace, actions, i, j, h, o, f);
    forall m | j <= m <= k ensures Listens(trace[m], o, e) {
      RegisteredUntil(trace, actions, i, m, h, o, f);
    }
    RunInv(trace, actions, j);
    NotifyReaches(trace, actions, j, k, g, e, o);
  }

  /** Only observers that are registered, alive and interested at that moment are told of an event. */
  lemma OnlyListenersTold(trace: seq<Subject>, actions: seq<Action>, i: nat, g: Thread, o: Observer)
    requires IsRun(trace, actions) && i < |actions| && g in trace[i].pcs && trace[i].pcs[g].Scanning?
    requires g in trace[i + 1].pcs && trace[i + 1].pcs[g].Scanning?
    ensures o in trace[i + 1].pcs[g].delivered <==>
              || o in trace[i].pcs[g].delivered
              || (actions[i] == Visit(g, o) && Listens(trace[i], o, trace[i].pcs[g].e))
  {
    RunStep(trace, actions, i);
  }

  lemma StaysUnregistered(trace: seq<Subject>, actions: seq<Action>, i: nat, o: Observer)
    requires IsRun(trace, actions) && i < |actions| && !(actions[i].Register? && actions[i].o == o)
    requires o !in trace[i].table || (actions[i].Unregister? && actions[i].o == o)
    ensures o !in trace[i + 1].table
  {
    RunStep(trace, actions, i);
  }

  /** An unregistered observer is in the table no more, until it is registered again. */
  lemma {:induction false} UnregisteredUntil(
    trace: seq<Subject>, actions: seq<Action>, i: nat, j: nat, h: Thread, o: Observer)
    requires IsRun(trace, actions) && i < j < |trace| && actions[i] == Unregister(h, o)
    requires forall k :: i < k < j ==> !(actions[k].Register? && actions[k].o == o)
    ensures o !in trace[j].table
    decreases j
  {
    if j > i + 1 { UnregisteredUntil(trace, actions, i, j - 1, h, o); }
    StaysUnregistered(trace, actions, j - 1, o);
  }

  /** Other entries of the table are left alone, except that freed observers are dropped by a notification. */
  lemma OthersKept(trace: seq<Subject>, actions: seq<Action>, i: nat, o: Observer)
    requires IsRun(trace, actions) && i < |actions| && o in trace[i].table
    requires !((actions[i].Register? || actions[i].Unregister?) && actions[i].o == o)
    ensures if o in trace[i + 1].table then trace[i + 1].table[o] == trace[i].table[o]
            else actions[i].Visit? && actions[i].o == o && o in trace[i].dead
  {
    RunStep(trace, actions, i);
  }

  // ----- Notifying -----

  /** A notification of an empty table returns at once, without the lock. */
  lemma EmptyTableSkipsLock(trace: seq<Subject>, actions: seq<Action>, i: nat, g: Thread, e: Event)
    requires IsRun(trace, actions) && i < |actions| && actions[i] == Load(g, e)
    requires trace[i].table == map[] && trace[i].holder.None?
    ensures trace[i + 1].pcs[g] == Returned(e, {}, {})
  {
    RunStep(trace, actions, i);
    FastPathOwesNothing(trace[i], e);
  }

  ghost predicate AreSteps(trace: seq<Subject>, actions: seq<Action>) {
    && |trace| == |actions| + 1
    && (forall i :: 0 <= i < |actions| ==>
          Enabled(trace[i], actions[i]) && trace[i + 1] == Do(trace[i], actions[i]))
  }

  lemma Prepend(s: Subject, a: Action, trace: seq<Subject>, actions: seq<Action>)
    requires AreSteps(trace, actions) && Enabled(s, a) && trace[0] == Do(s, a)
    ensures AreSteps([s] + trace, [a] + actions)
  {
    var trace', actions' := [s] + trace, [a] + actions;
    forall i | 0 <= i < |actions'|
      ensures Enabled(trace'[i], actions'[i]) && trace'[i + 1] == Do(trace'[i], actions'[i])
    {
      if i > 0 { assert actions'[i] == actions[i - 1] && trace'[i] == trace[i - 1] && trace'[i + 1] == trace[i]; }
    }
  }

  lemma {:induction false} FinishScan(s: Subject, g: Thread) returns (trace: seq<Subject>, actions: seq<Action>)
    requires g in s.pcs && s.pcs[g].Scanning?
    ensures AreSteps(trace, actions) && trace[0] == s
    ensures var s' := trace[|actions|];
            g in s'.pcs && s'.pcs[g].Returned? && s'.pcs[g].e == s.pcs[g].e && s'.holder.None?
    decreases s.pcs[g].todo
  {
    if s.pcs[g].todo == {} {
      assert AreSteps([s, Do(s, Finish(g))], [Finish(g)]);
      trace, actions := [s, Do(s, Finish(g))], [Finish(g)];
    } else {
      var o :| o in s.pcs[g].todo;
      trace, actions := FinishScan(Do(s, Visit(g, o)), g);
      Prepend(s, Visit(g, o), trace, actions);
      trace, actions := [s] + trace, [Visit(g, o)] + actions;
    }
  }

  /** A notification returns, if nobody else runs once the lock is free. */
  lemma NotifyReturns(s: Subject, g: Thread) returns (trace: seq<Subject>, actions: seq<Action>)
    requires g in s.pcs && s.pcs[g].Waiting? && s.holder.None?
    ensures AreSteps(trace, actions) && trace[0] == s
    ensures var s' := trace[|actions|];
            g in s'.pcs && s'.pcs[g].Returned? && s'.pcs[g].e == s.pcs[g].e && s'.holder.None?
  {
    trace, actions := FinishScan(Do(s, Lock(g)), g);
    Prepend(s, Lock(g), trace, actions);
    trace, actions := [s] + trace, [Lock(g)] + actions;
  }
}
