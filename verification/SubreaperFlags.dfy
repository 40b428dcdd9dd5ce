/**
  Handing `has_child_subreaper` down while clones, exits and waits go on.

  A propagation is a queue of processes that still owe the flag to their children; one step takes
  one of them off and flags its children under its `children` lock.  The lock of the process that
  propagates is held from its own visit, the first one, to the end.  Any number of propagations
  runs between the actions of the process protocol.
 */
module SubreaperFlags {
  import opened Processes
  import opened ProcessProtocol
  import opened ProcessRuns
  import opened ExitPath

  /** `set_child_subreaper` of `owner`, past the store of its own flag. */
  datatype Setter = Setter(owner: Pid, queue: seq<Pid>)

  datatype Handing = Handing(kernel: Kernel, setters: map<nat, Setter>)

  datatype Step =
    | Other(a: Action)                    // clone, exit, wait and tick
    | StoreSubreaper(p: Pid, b: bool)     // the store of `is_child_subreaper`
    | FetchOr(id: nat, p: Pid)            // the own flag; a flag that was set already ends the call
    | Visit(id: nat, added: seq<Pid>)     // flags the children of the head of the queue

  function WithHas(k: Kernel, has: set<Pid>): Kernel {
    k.(tree := k.tree.(hasSubreaper := has))
  }

  function WithIs(k: Kernel, subreapers: set<Pid>): Kernel {
    k.(tree := k.tree.(isSubreaper := subreapers))
  }

  /** The `children` locks that propagations hold: an owner leaves its queue with its own visit. */
  ghost function Held(h: Handing): set<Pid> {
    set id | id in h.setters && h.setters[id].owner !in h.setters[id].queue :: h.setters[id].owner
  }

  /** The `children` locks an action takes. */
  function Locks(k: Kernel, a: Action): set<Pid>
    requires Enabled(k, a)
  {
    match a
    case LinkChild(child) => {k.clones[child].target.value}
    case Wait(w, _) => {w}
    case StepExit(p) => if k.exits[p].pc.Move? then {k.exits[p].pc.q, p} else {}
    case _ => {}
  }

  ghost predicate Allowed(h: Handing, m: Step) {
    var t := h.kernel.tree;
    match m
    case Other(a) =>
      // A thread inside `set_child_subreaper` keeps its process from being a zombie.
      && Enabled(h.kernel, a) && !a.SetSubreaper? && Locks(h.kernel, a) !! Held(h)
      && (a.SetZombie? ==> forall id :: id in h.setters ==> h.setters[id].owner != a.p)
    case StoreSubreaper(p, _) => p in t.parent && p !in t.zombies
    case FetchOr(id, p) => id !in h.setters && p in t.parent && p !in t.zombies
    case Visit(id, added) =>
      && id in h.setters && h.setters[id].queue != [] && h.setters[id].queue[0] !in Held(h)
      && var q := h.setters[id].queue[0];
         if q in t.children then forall c :: c in added <==> c in t.children[q] && c !in t.hasSubreaper
         else added == []
  }

  ghost function Make(h: Handing, m: Step): Handing
    requires Allowed(h, m)
  {
    var t := h.kernel.tree;
    match m
    case Other(a) => h.(kernel := Do(h.kernel, a))
    case StoreSubreaper(p, b) =>
      h.(kernel := WithIs(h.kernel, if b then t.isSubreaper + {p} else t.isSubreaper - {p}))
    case FetchOr(id, p) =>
      if p in t.hasSubreaper then h
      else Handing(WithHas(h.kernel, t.hasSubreaper + {p}), h.setters[id := Setter(p, [p])])
    case Visit(id, added) =>
      var s := h.setters[id];
      var queue := s.queue[1..] + added;
      Handing(if s.queue[0] in t.children then WithHas(h.kernel, t.hasSubreaper + t.children[s.queue[0]]) else h.kernel,
              if queue == [] then h.setters - {id} else h.setters[id := s.(queue := queue)])
  }

  /** A run from any reachable state in which the flags are handed down and nobody propagates. */
  ghost predicate IsHandingRun(trace: seq<Handing>, steps: seq<Step>) {
    && |trace| == |steps| + 1
    && Reachable(trace[0].kernel) && FlagLinked(trace[0].kernel.tree) && trace[0].setters == map[]
    && (forall i :: 0 <= i < |steps| ==> Allowed(trace[i], steps[i]) && trace[i + 1] == Make(trace[i], steps[i]))
  }

  // ----- Who still owes the flag -----

  /** The processes in the queue of some propagation. */
  ghost function Pending(h: Handing): set<Pid> {
    set id, r | id in h.setters && r in h.setters[id].queue :: r
  }

  /** Only processes in `pending` have the flag and an unflagged child. */
  ghost predicate OwedOnly(t: Tree, pending: set<Pid>) {
    forall r, c :: IsChild(t, r, c) && r in t.hasSubreaper && c !in t.hasSubreaper ==> r in pending
  }

  ghost predicate Handed(h: Handing) {
    OwedOnly(h.kernel.tree, Pending(h))
  }

  /** The reaper `q` has the flag and is in no queue any more, and `p` has an unflagged child. */
  ghost predicate Gap(t: Tree, pending: set<Pid>, p: Pid, q: Pid) {
    && p in t.children && q in t.children
    && q in t.hasSubreaper && q !in pending
    && exists c :: c in t.children[p] && c !in t.hasSubreaper
  }

  /** An exiting process hands an unflagged child to a flagged reaper that nobody will visit again. */
  ghost predicate Strays(h: Handing, m: Step)
    requires Allowed(h, m)
  {
    && m.Other? && m.a.StepExit? && h.kernel.exits[m.a.p].pc.Move?
    && Gap(h.kernel.tree, Pending(h), m.a.p, h.kernel.exits[m.a.p].pc.q)
  }

  /** While a process propagates, none strays to it. */
  lemma StrayReaperIsIdle(h: Handing, m: Step)
    requires Allowed(h, m) && Strays(h, m)
    ensures forall id :: id in h.setters ==> h.setters[id].owner != h.kernel.exits[m.a.p].pc.q
  {
    var q := h.kernel.exits[m.a.p].pc.q;
    assert q in Locks(h.kernel, m.a) && q !in Held(h) && q !in Pending(h);
    forall id | id in h.setters ensures h.setters[id].owner != q {
    }
  }

  lemma ReparentOwes(t: Tree, pending: set<Pid>, p: Pid, q: Pid)
    requires OwedOnly(t, pending) && p in t.children && q in t.children && p != q
    ensures OwedOnly(Reparent(t, p, q), pending) <==> !Gap(t, pending, p, q)
  {
    var u := Reparent(t, p, q);
    if Gap(t, pending, p, q) {
      var c :| c in t.children[p] && c !in t.hasSubreaper;
      assert IsChild(u, q, c);
    } else {
      forall r, c | IsChild(u, r, c) && r in u.hasSubreaper && c !in u.hasSubreaper ensures r in pending {
        assert IsChild(t, r, c) || (r == q && c in t.children[p]);
      }
    }
  }

  lemma AttachOwes(t: Tree, pending: set<Pid>, p: Pid, child: Pid)
    requires OwedOnly(t, pending) && p in t.children
    ensures OwedOnly(Attach(t, p, child), pending)
  {
    var u := Attach(t, p, child);
    forall r, c | IsChild(u, r, c) && r in u.hasSubreaper && c !in u.hasSubreaper ensures r in pending {
      assert IsChild(t, r, c);
    }
  }

  lemma ReapOwes(t: Tree, pending: set<Pid>, w: Pid, c: Pid)
    requires OwedOnly(t, pending) && w in t.children
    ensures OwedOnly(Reap(t, w, c), pending)
  {
    forall r, d | IsChild(Reap(t, w, c), r, d) ensures IsChild(t, r, d) {}
  }

  lemma SameOwes(t: Tree, u: Tree, pending: set<Pid>)
    requires OwedOnly(t, pending) && u.children == t.children && u.hasSubreaper == t.hasSubreaper
    ensures OwedOnly(u, pending)
  {
    forall r, c | IsChild(u, r, c) ensures IsChild(t, r, c) {}
  }

  /** Flagging `p` and queueing it. */
  lemma FlagOwes(t: Tree, pending: set<Pid>, p: Pid)
    requires OwedOnly(t, pending)
    ensures OwedOnly(t.(hasSubreaper := t.hasSubreaper + {p}), pending + {p})
  {
    forall r, c | IsChild(t.(hasSubreaper := t.hasSubreaper + {p}), r, c) ensures IsChild(t, r, c) {}
  }

  /** Flagging the children of `q` settles what `q` owes; the newly flagged ones are queued. */
  lemma VisitOwes(t: Tree, pending: set<Pid>, after: set<Pid>, q: Pid)
    requires OwedOnly(t, pending) && q in t.children && pending - {q} <= after
    requires forall c :: c in t.children[q] && c !in t.hasSubreaper ==> c in after
    ensures OwedOnly(t.(hasSubreaper := t.hasSubreaper + t.children[q]), after)
  {
    var u := t.(hasSubreaper := t.hasSubreaper + t.children[q]);
    forall r, c | IsChild(u, r, c) && r in u.hasSubreaper && c !in u.hasSubreaper ensures r in after {
      assert IsChild(t, r, c);
    }
  }

  lemma ClearedOwes(t: Tree, pending: set<Pid>, after: set<Pid>, q: Pid)
    requires OwedOnly(t, pending) && q !in t.children && pending - {q} <= after
    ensures OwedOnly(t, after)
  {
  }

  // ----- Each step -----

  lemma HandedByExit(h: Handing, m: Step)
    requires Inv(h.kernel) && Handed(h) && Allowed(h, m) && m.Other? && m.a.StepExit?
    ensures Handed(Make(h, m)) <==> !Strays(h, m)
  {
    var t, p, e := h.kernel.tree, m.a.p, h.kernel.exits[m.a.p];
    assert Pending(Make(h, m)) == Pending(h);
    assert ExitOk(t, p, e);
    if e.pc.Move? && e.pc.q in t.children && p in t.children {
      ReparentOwes(t, Pending(h), p, e.pc.q);
    } else {
      SameOwes(t, NextExit(t, p, e).0, Pending(h));
    }
  }

  lemma HandedByOther(h: Handing, m: Step)
    requires Inv(h.kernel) && Handed(h) && Allowed(h, m) && m.Other? && !m.a.StepExit?
    ensures Handed(Make(h, m))
  {
    var k := h.kernel;
    assert Pending(Make(h, m)) == Pending(h);
    if m.a.LinkChild? && k.clones[m.a.child].target.value in k.tree.children {
      AttachOwes(k.tree, Pending(h), k.clones[m.a.child].target.value, m.a.child);
    } else if m.a.Wait? && m.a.w in k.tree.children {
      ReapOwes(k.tree, Pending(h), m.a.w, m.a.c);
    } else {
      SameOwes(k.tree, Make(h, m).kernel.tree, Pending(h));
    }
  }

  lemma HandedByFetchOr(h: Handing, m: Step)
    requires Handed(h) && Allowed(h, m) && m.FetchOr?
    ensures Handed(Make(h, m))
  {
    var h' := Make(h, m);
    if m.p !in h.kernel.tree.hasSubreaper {
      FlagOwes(h.kernel.tree, Pending(h), m.p);
      forall r | r in Pending(h) + {m.p} ensures r in Pending(h') {
        if r == m.p {
          assert m.id in h'.setters && r in h'.setters[m.id].queue;
        } else {
          var id :| id in h.setters && r in h.setters[id].queue;
          assert id in h'.setters && r in h'.setters[id].queue;
        }
      }
    }
  }

  /** What is in a queue stays there, except for the head that is visited. */
  lemma PendingAfterVisit(h: Handing, m: Step, r: Pid)
    requires Allowed(h, m) && m.Visit?
    requires r in m.added || (r in Pending(h) && r != h.setters[m.id].queue[0])
    ensures r in Pending(Make(h, m))
  {
    var h', s := Make(h, m), h.setters[m.id];
    var id :| if r in m.added then id == m.id else id in h.setters && r in h.setters[id].queue;
    if id == m.id {
      assert s.queue == [s.queue[0]] + s.queue[1..];
      assert r in s.queue[1..] + m.added;
    }
    assert id in h'.setters && r in h'.setters[id].queue;
  }

  lemma HandedByVisit(h: Handing, m: Step)
    requires Handed(h) && Allowed(h, m) && m.Visit?
    ensures Handed(Make(h, m))
  {
    var t, q, after := h.kernel.tree, h.setters[m.id].queue[0], Pending(Make(h, m));
    forall r | r in m.added || (r in Pending(h) && r != q) ensures r in after {
      PendingAfterVisit(h, m, r);
    }
    if q in t.children {
      VisitOwes(t, Pending(h), after, q);
    } else {
      ClearedOwes(t, Pending(h), after, q);
    }
  }

  function QueueLength(h: Handing, id: nat): nat {
    if id in h.setters then |h.setters[id].queue| else 0
  }

  /** A propagation ends: a visit leaves fewer processes without the flag, or as many and a shorter queue. */
  lemma VisitProgress(h: Handing, m: Step)
    requires WellFormed(h.kernel.tree) && Allowed(h, m) && m.Visit?
    ensures var h' := Make(h, m);
            var without, without' := h.kernel.tree.parent.Keys - h.kernel.tree.hasSubreaper,
                                     h'.kernel.tree.parent.Keys - h'.kernel.tree.hasSubreaper;
            && without' <= without
            && (without' < without || QueueLength(h', m.id) < QueueLength(h, m.id))
            && h'.setters - {m.id} == h.setters - {m.id} && (m.id in h'.setters ==> QueueLength(h', m.id) > 0)
  {
    var t, q := h.kernel.tree, h.setters[m.id].queue[0];
    if q in t.children {
      Progress(t, q, t.hasSubreaper, m.added);
    }
  }

  /** A step keeps the flags handed down, up to the queues, if and only if it lets no process stray. */
  lemma HandedExactly(h: Handing, m: Step)
    requires Inv(h.kernel) && Handed(h) && Allowed(h, m)
    ensures Handed(Make(h, m)) <==> !Strays(h, m)
  {
    match m
    case Other(a) => if a.StepExit? { HandedByExit(h, m); } else { HandedByOther(h, m); }
    case StoreSubreaper(_, _) =>
      assert Pending(Make(h, m)) == Pending(h);
      SameOwes(h.kernel.tree, Make(h, m).kernel.tree, Pending(h));
    case FetchOr(_, _) => HandedByFetchOr(h, m);
    case Visit(_, _) => HandedByVisit(h, m);
  }

  // ----- Whole runs -----

  lemma ReachableInv(k: Kernel)
    requires Reachable(k)
    ensures Inv(k)
  {
    var trace, actions :| IsRun(trace, actions) && trace[|trace| - 1] == k;
    RunInv(trace, actions, |trace| - 1);
  }

  /** Flags set one after the other are actions of the process protocol. */
  lemma {:induction false} ReachFlags(k: Kernel, s: set<Pid>) returns (k': Kernel)
    requires Reachable(k) && s <= k.tree.parent.Keys
    ensures k' == WithHas(k, k.tree.hasSubreaper + s) && Reachable(k')
    decreases s
  {
    if s == {} {
      k' := k;
      assert k.tree.hasSubreaper + s == k.tree.hasSubreaper;
    } else {
      var p :| p in s;
      var k1 := ReachableStep(k, SetSubreaper(p, p in k.tree.isSubreaper, true));
      assert k1.tree.isSubreaper == k.tree.isSubreaper;
      k' := ReachFlags(k1, s - {p});
      assert k.tree.hasSubreaper + {p} + (s - {p}) == k.tree.hasSubreaper + s;
    }
  }

  /** The propagations only take the kernel to states that the process protocol reaches. */
  lemma StepReaches(h: Handing, m: Step)
    requires Reachable(h.kernel) && Allowed(h, m)
    ensures Reachable(Make(h, m).kernel)
  {
    var k := h.kernel;
    ReachableInv(k);
    match m
    case Other(a) => var _ := ReachableStep(k, a);
    case StoreSubreaper(p, b) =>
      var k' := ReachableStep(k, SetSubreaper(p, b, p in k.tree.hasSubreaper));
      assert k'.tree.hasSubreaper == k.tree.hasSubreaper;
    case FetchOr(_, p) => var _ := ReachFlags(k, {p});
    case Visit(id, _) =>
      var q := h.setters[id].queue[0];
      if q in k.tree.children {
        forall c | c in k.tree.children[q] ensures c in k.tree.parent { assert IsChild(k.tree, q, c); }
        var _ := ReachFlags(k, k.tree.children[q]);
      }
  }

  lemma {:induction false} RunReaches(trace: seq<Handing>, steps: seq<Step>, i: nat)
    requires IsHandingRun(trace, steps) && i < |trace|
    ensures Reachable(trace[i].kernel) && Inv(trace[i].kernel)
    decreases i
  {
    if i > 0 {
      RunReaches(trace, steps, i - 1);
      StepReaches(trace[i - 1], steps[i - 1]);
    }
    ReachableInv(trace[i].kernel);
  }

  lemma StartHanded(h: Handing)
    requires FlagLinked(h.kernel.tree)
    ensures Handed(h)
  {
  }

  /** As long as no process strays, only queued processes owe the flag to a child. */
  lemma {:induction false} HandedUntilStray(trace: seq<Handing>, steps: seq<Step>, i: nat)
    requires IsHandingRun(trace, steps) && i < |trace|
    requires forall j {:trigger steps[j]} :: 0 <= j < i ==> !Strays(trace[j], steps[j])
    ensures Handed(trace[i])
    decreases i
  {
    if i == 0 {
      StartHanded(trace[0]);
    } else {
      HandedUntilStray(trace, steps, i - 1);
      RunReaches(trace, steps, i - 1);
      assert !Strays(trace[i - 1], steps[i - 1]);
      HandedExactly(trace[i - 1], steps[i - 1]);
    }
  }

  /**
    The exact condition, over every interleaving of propagations with clones, exits and waits: in
    all states up to `n` only queued processes owe the flag to a child if and only if no step
    before lets a process stray.
   */
  lemma HandedIffNoneStrays(trace: seq<Handing>, steps: seq<Step>, n: nat)
    requires IsHandingRun(trace, steps) && n < |trace|
    ensures (forall i :: 0 <= i <= n ==> Handed(trace[i]))
       <==> (forall j {:trigger steps[j]} :: 0 <= j < n ==> !Strays(trace[j], steps[j]))
  {
    if forall j {:trigger steps[j]} :: 0 <= j < n ==> !Strays(trace[j], steps[j]) {
      forall i | 0 <= i <= n ensures Handed(trace[i]) {
        HandedUntilStray(trace, steps, i);
      }
    } else {
      var j :| 0 <= j < n && Strays(trace[j], steps[j]);
      RunReaches(trace, steps, j);
      if Handed(trace[j]) {
        HandedExactly(trace[j], steps[j]);
        assert !Handed(trace[j + 1]);
      }
    }
  }

  /** When all propagations have ended and none let a process stray, every child of a flagged process has the flag. */
  lemma PropagationsHandDown(trace: seq<Handing>, steps: seq<Step>, n: nat)
    requires IsHandingRun(trace, steps) && n < |trace| && trace[n].setters == map[]
    requires forall j {:trigger steps[j]} :: 0 <= j < n ==> !Strays(trace[j], steps[j])
    ensures FlagLinked(trace[n].kernel.tree)
  {
    HandedUntilStray(trace, steps, n);
    assert Pending(trace[n]) == {};
  }

  lemma ActionKeepsFlags(k: Kernel, a: Action)
    requires Enabled(k, a) && !a.SetSubreaper?
    ensures k.tree.hasSubreaper <= Do(k, a).tree.hasSubreaper && Do(k, a).tree.isSubreaper == k.tree.isSubreaper
  {
    if a.StepExit? { assert NextExit(k.tree, a.p, k.exits[a.p]).0.hasSubreaper == k.tree.hasSubreaper; }
  }

  /** No step takes a flag back, and only the own call changes whether a process is a subreaper. */
  lemma StepKeepsFlags(h: Handing, m: Step, p: Pid)
    requires Allowed(h, m)
    ensures h.kernel.tree.hasSubreaper <= Make(h, m).kernel.tree.hasSubreaper
    ensures !(m.StoreSubreaper? && m.p == p) ==>
              (p in Make(h, m).kernel.tree.isSubreaper <==> p in h.kernel.tree.isSubreaper)
  {
    if m.Other? { ActionKeepsFlags(h.kernel, m.a); }
  }

  /** Step `i` leaves `p` the flag and the subreaper attribute. */
  ghost predicate KeepsAt(trace: seq<Handing>, i: nat, p: Pid)
    requires i + 1 < |trace|
  {
    var t, u := trace[i].kernel.tree, trace[i + 1].kernel.tree;
    (p in t.hasSubreaper ==> p in u.hasSubreaper) && (p in t.isSubreaper ==> p in u.isSubreaper)
  }

  lemma {:induction false} FlagsStay(trace: seq<Handing>, i: nat, n: nat, p: Pid)
    requires i <= n < |trace| && forall m :: i <= m < n ==> KeepsAt(trace, m, p)
    ensures p in trace[i].kernel.tree.hasSubreaper ==> p in trace[n].kernel.tree.hasSubreaper
    ensures p in trace[i].kernel.tree.isSubreaper ==> p in trace[n].kernel.tree.isSubreaper
    decreases n
  {
    if i < n {
      FlagsStay(trace, i, n - 1, p);
      assert KeepsAt(trace, n - 1, p);
    }
  }

  lemma RunKeepsFlags(trace: seq<Handing>, steps: seq<Step>, i: nat, n: nat, p: Pid)
    requires IsHandingRun(trace, steps) && i <= n < |trace|
    requires forall m {:trigger steps[m]} :: i <= m < n ==> !(steps[m].StoreSubreaper? && steps[m].p == p)
    ensures p in trace[i].kernel.tree.hasSubreaper ==> p in trace[n].kernel.tree.hasSubreaper
    ensures p in trace[i].kernel.tree.isSubreaper ==> p in trace[n].kernel.tree.isSubreaper
  {
    forall m | i <= m < n ensures KeepsAt(trace, m, p) {
      StepKeepsFlags(trace[m], steps[m], p);
    }
    FlagsStay(trace, i, n, p);
  }

  /**
    What `set_child_subreaper` achieves: once all propagations have ended and none let a process
    stray, `p` is a subreaper until it takes that back, and every unreaped process below it carries
    the flag, on a tree on which no exit is under way.
   */
  lemma SubreaperReaches(trace: seq<Handing>, steps: seq<Step>, i: nat, j: nat, n: nat, p: Pid)
    requires IsHandingRun(trace, steps) && i < j < n < |trace| && trace[n].setters == map[]
    requires steps[i] == StoreSubreaper(p, true) && steps[j].FetchOr? && steps[j].p == p
    requires forall m {:trigger steps[m]} :: i < m < n ==> !(steps[m].StoreSubreaper? && steps[m].p == p)
    requires forall m {:trigger steps[m]} :: 0 <= m < n ==> !Strays(trace[m], steps[m])
    ensures Ranked(trace[n].kernel.tree) && p in trace[n].kernel.tree.isSubreaper * trace[n].kernel.tree.hasSubreaper
    ensures var t := trace[n].kernel.tree;
            Settled(t) ==> forall x :: x in t.parent && x !in t.reaped && p in Ancestors(t, x) ==> x in t.hasSubreaper
  {
    var t := trace[n].kernel.tree;
    RunReaches(trace, steps, n);
    PropagationsHandDown(trace, steps, n);
    assert trace[i + 1] == Make(trace[i], steps[i]) && trace[j + 1] == Make(trace[j], steps[j]);
    RunKeepsFlags(trace, steps, i + 1, n, p);
    RunKeepsFlags(trace, steps, j + 1, n, p);
    if Settled(t) {
      forall x | x in t.parent && x !in t.reaped && p in Ancestors(t, x) ensures x in t.hasSubreaper {
        FlagsReachDown(t, x, p);
      }
    }
  }

  /** The thread that propagates keeps its process alive, so its children map is there to be unwrapped. */
  ghost predicate OwnersAlive(h: Handing) {
    forall id :: id in h.setters ==>
      h.setters[id].owner in h.kernel.tree.parent && h.setters[id].owner !in h.kernel.tree.zombies
  }

  lemma ActionZombies(k: Kernel, a: Action)
    requires Enabled(k, a)
    ensures k.tree.parent.Keys <= Do(k, a).tree.parent.Keys
    ensures Do(k, a).tree.zombies == k.tree.zombies + (if a.SetZombie? then {a.p} else {})
  {
    if a.StepExit? { ExitKeepsBooks(k, a.p); }
  }

  lemma OwnersStay(h: Handing, m: Step)
    requires OwnersAlive(h) && Allowed(h, m)
    ensures OwnersAlive(Make(h, m))
  {
    if m.Other? {
      ActionZombies(h.kernel, m.a);
      assert Make(h, m).setters == h.setters;
    } else {
      assert Make(h, m).kernel.tree.zombies == h.kernel.tree.zombies;
      assert Make(h, m).kernel.tree.parent == h.kernel.tree.parent;
    }
  }

  lemma {:induction false} OwnersHaveChildren(trace: seq<Handing>, steps: seq<Step>, i: nat)
    requires IsHandingRun(trace, steps) && i < |trace|
    ensures OwnersAlive(trace[i])
    ensures forall id :: id in trace[i].setters ==> trace[i].setters[id].owner in trace[i].kernel.tree.children
    decreases i
  {
    if i > 0 {
      OwnersHaveChildren(trace, steps, i - 1);
      RunReaches(trace, steps, i - 1);
      OwnersStay(trace[i - 1], steps[i - 1]);
    }
    RunReaches(trace, steps, i);
  }

  // ----- A process that strays -----

  ghost predicate HandingReachable(h: Handing) {
    exists trace, steps :: IsHandingRun(trace, steps) && trace[|trace| - 1] == h
  }

  lemma ExtendRun(trace: seq<Handing>, steps: seq<Step>, h: Handing, m: Step, h': Handing)
    requires IsHandingRun(trace, steps) && trace[|trace| - 1] == h && Allowed(h, m) && h' == Make(h, m)
    ensures IsHandingRun(trace + [h'], steps + [m])
  {
    var trace', steps' := trace + [h'], steps + [m];
    assert trace'[0] == trace[0];
    forall i | 0 <= i < |steps'| ensures Allowed(trace'[i], steps'[i]) && trace'[i + 1] == Make(trace'[i], steps'[i]) {
      if i < |steps| {
        assert steps'[i] == steps[i] && trace'[i] == trace[i] && trace'[i + 1] == trace[i + 1];
      } else {
        assert steps'[i] == m && trace'[i] == h && trace'[i + 1] == h';
      }
    }
  }

  lemma HandingStep(h: Handing, m: Step) returns (h': Handing)
    requires HandingReachable(h) && Allowed(h, m)
    ensures h' == Make(h, m) && HandingReachable(h')
  {
    h' := Make(h, m);
    var trace, steps :| IsHandingRun(trace, steps) && trace[|trace| - 1] == h;
    ExtendRun(trace, steps, h, m, h');
    assert (trace + [h'])[|trace + [h']| - 1] == h';
  }

  lemma HandingRanked(h: Handing)
    requires HandingReachable(h)
    ensures Ranked(h.kernel.tree)
  {
    var trace, steps :| IsHandingRun(trace, steps) && trace[|trace| - 1] == h;
    RunReaches(trace, steps, |trace| - 1);
  }

  /** The chain 1, 2, 3, 4, 5 of processes, each the child of the one before. */
  function Chain(): Tree {
    Tree(map[1 := 0, 2 := 1, 3 := 2, 4 := 3, 5 := 4], map[1 := {2}, 2 := {3}, 3 := {4}, 4 := {5}, 5 := {}],
         {}, {}, {}, {})
  }

  lemma ReachChain() returns (h: Handing)
    ensures h == Handing(Kernel(Chain(), 6, map[], map[]), map[]) && HandingReachable(h)
  {
    var k3 := ReachGrandchild();
    var k4 := ReachClone(k3, 3);
    assert k4.tree.children[3] == {4};
    var k5 := ReachClone(k4, 4);
    assert k5.tree.children[4] == {5};
    assert k5.tree.parent == Chain().parent && k5.tree.children == Chain().children;
    h := Handing(k5, map[]);
    assert IsHandingRun([h], []);
    assert [h][|[h]| - 1] == h;
  }

  lemma ReachSubreaper(h0: Handing, p: Pid) returns (h: Handing)
    requires HandingReachable(h0) && h0.setters == map[] && p in h0.kernel.tree.parent && p !in h0.kernel.tree.zombies
    requires h0.kernel.tree.isSubreaper == {} && h0.kernel.tree.hasSubreaper == {}
    ensures HandingReachable(h) && h.setters == map[0 := Setter(p, [p])]
    ensures h.kernel == h0.kernel.(tree := h0.kernel.tree.(isSubreaper := {p}, hasSubreaper := {p}))
  {
    var h1 := HandingStep(h0, StoreSubreaper(p, true));
    assert h1.kernel.tree.isSubreaper == {p};
    h := HandingStep(h1, FetchOr(0, p));
    assert h.kernel.tree.hasSubreaper == {p};
  }

  function WithExit(h: Handing, p: Pid, pc: ExitPc): Handing {
    h.(kernel := h.kernel.(exits := h.kernel.exits[p := Exit(pc, {}, 0)]))
  }

  /** A step of the walk to a reaper, which takes no `children` lock. */
  lemma TakeWalkStep(h: Handing, p: Pid, pc: ExitPc) returns (h': Handing)
    requires HandingReachable(h) && p in h.kernel.exits
    requires !h.kernel.exits[p].pc.Finished? && !h.kernel.exits[p].pc.Move?
    requires NextExit(h.kernel.tree, p, h.kernel.exits[p]) == (h.kernel.tree, Exit(pc, {}, 0))
    ensures h' == WithExit(h, p, pc) && HandingReachable(h')
  {
    h' := HandingStep(h, Other(StepExit(p)));
  }

  /** An exiting process finds that its parent `q` carries the flag. */
  lemma WalkToParent(h: Handing, p: Pid, q: Pid) returns (h': Handing)
    requires HandingReachable(h) && p in h.kernel.exits && h.kernel.exits[p] == Exit(ReadParent, {}, 0)
    requires p in h.kernel.tree.parent && h.kernel.tree.parent[p] == q && q in h.kernel.tree.parent
    requires h.kernel.tree.parent[q] != NO_PID && q in h.kernel.tree.hasSubreaper
    ensures h' == WithExit(h, p, LoadSubreaper(q)) && HandingReachable(h')
  {
    var h1 := TakeWalkStep(h, p, AtAncestor(q));
    h' := TakeWalkStep(h1, p, LoadSubreaper(q));
  }

  /** And that `q` is a live subreaper. */
  lemma WalkPicksParent(h: Handing, p: Pid, q: Pid) returns (h': Handing)
    requires HandingReachable(h) && p in h.kernel.exits && h.kernel.exits[p] == Exit(LoadSubreaper(q), {}, 0)
    requires q in h.kernel.tree.isSubreaper && q !in h.kernel.tree.zombies
    ensures h' == WithExit(h, p, Move(q)) && HandingReachable(h')
  {
    var h1 := TakeWalkStep(h, p, LoadZombie(q, true));
    h' := TakeWalkStep(h1, p, Move(q));
  }

  /** The hand-over itself, while nobody propagates. */
  lemma TakeMove(h: Handing, p: Pid, q: Pid) returns (h': Handing)
    requires HandingReachable(h) && h.setters == map[] && p in h.kernel.exits && h.kernel.exits[p].pc == Move(q)
    requires p in h.kernel.tree.children && q in h.kernel.tree.children
    ensures HandingReachable(h') && h'.setters == map[] && h'.kernel.tree == Reparent(h.kernel.tree, p, q)
  {
    assert Held(h) == {};
    h' := HandingStep(h, Other(StepExit(p)));
  }

  lemma StartExit(h0: Handing, p: Pid) returns (h: Handing)
    requires HandingReachable(h0) && h0.kernel.clones == map[]
    requires forall id :: id in h0.setters ==> h0.setters[id].owner != p
    requires p in h0.kernel.tree.parent && h0.kernel.tree.parent[p] != NO_PID && p !in h0.kernel.tree.zombies
    ensures HandingReachable(h) && h.setters == h0.setters
    ensures var k := h0.kernel;
            h.kernel == k.(tree := k.tree.(zombies := k.tree.zombies + {p}),
                           exits := k.exits[p := Exit(ReadParent, {}, 0)])
  {
    h := HandingStep(h0, Other(SetZombie(p)));
  }

  /** The walk from 5 stops at its parent 4, which has no flag. */
  lemma StrayPick(t: Tree)
    requires Ranked(t) && 5 in t.parent && t.parent[5] == 4 && 4 in t.parent && t.parent[4] == 2 && 2 in t.parent
    requires t.isSubreaper == {2} && 2 !in t.zombies && 4 !in t.hasSubreaper
    ensures IsNearestReaper(t, 5, 2) && PickedReaper(t, 5) == INIT_PID
  {
    NearestReaperOnChain(t, 5);
    assert NearestReaper(t, 4) == NearestReaper(t, 2) == 2;
  }

  /** Process 3 has begun to exit and is reaped by 2 while it still owns its child 4. */
  lemma ReachReaped() returns (h: Handing)
    ensures HandingReachable(h) && h.setters == map[]
    ensures h.kernel == Kernel(Chain().(children := Chain().children[2 := {}], zombies := {3}, reaped := {3}), 6, map[],
                               map[3 := Exit(ReadParent, {}, 0)])
  {
    var h0 := ReachChain();
    var h1 := StartExit(h0, 3);
    assert h1.kernel.tree.children[2] - {3} == {};
    h := HandingStep(h1, Other(Wait(2, 3)));
    assert h.kernel.tree.reaped == {3} && h.kernel.tree.zombies == {3};
  }

  /** A process without children becomes a subreaper; its propagation ends with its own visit. */
  lemma ReachPropagated(h0: Handing, p: Pid) returns (h: Handing)
    requires HandingReachable(h0) && h0.setters == map[] && p in h0.kernel.tree.parent && p !in h0.kernel.tree.zombies
    requires h0.kernel.tree.isSubreaper == {} && h0.kernel.tree.hasSubreaper == {}
    requires p in h0.kernel.tree.children && h0.kernel.tree.children[p] == {}
    ensures HandingReachable(h) && h.setters == map[]
    ensures h.kernel == h0.kernel.(tree := h0.kernel.tree.(isSubreaper := {p}, hasSubreaper := {p}))
  {
    var h1 := ReachSubreaper(h0, p);
    assert [p][1..] + [] == [] && {p} + {} == {p};
    h := HandingStep(h1, Visit(0, []));
    assert h.setters == map[];
  }

  /** An exiting process hands its children to its parent `q`, a live subreaper. */
  lemma ReachHandover(h0: Handing, p: Pid, q: Pid) returns (h: Handing)
    requires HandingReachable(h0) && h0.setters == map[]
    requires p in h0.kernel.exits && h0.kernel.exits[p] == Exit(ReadParent, {}, 0)
    requires var t := h0.kernel.tree;
             && p in t.parent && t.parent[p] == q && q in t.parent && t.parent[q] != NO_PID
             && q in t.hasSubreaper && q in t.isSubreaper && q !in t.zombies && p in t.children && q in t.children
    ensures HandingReachable(h) && h.setters == map[] && h.kernel.tree == Reparent(h0.kernel.tree, p, q)
  {
    var h1 := WalkToParent(h0, p, q);
    var h2 := WalkPicksParent(h1, p, q);
    h := TakeMove(h2, p, q);
  }

  /**
    Process 3 exits and is reaped by 2 while it still owns its child 4.  Then 2 becomes a subreaper
    and finds no child to flag.  Then 3 hands 4 to 2.  Nobody propagates any more, 4 is a child of
    the subreaper 2 and has no flag, and the children of 5 would go to init although 2 is the
    nearest live subreaper.
   */
  lemma StrayLosesReaper() returns (h: Handing)
    ensures HandingReachable(h) && h.setters == map[]
    ensures IsChild(h.kernel.tree, 2, 4) && !FlagLinked(h.kernel.tree)
    ensures Ranked(h.kernel.tree) && 5 in h.kernel.tree.parent
    ensures IsNearestReaper(h.kernel.tree, 5, 2) && PickedReaper(h.kernel.tree, 5) == INIT_PID
  {
    var h0 := ReachReaped();
    var h1 := ReachPropagated(h0, 2);
    h := ReachHandover(h1, 3, 2);
    var t := h.kernel.tree;
    assert IsChild(t, 2, 4) && 2 in t.hasSubreaper && 4 !in t.hasSubreaper;
    HandingRanked(h);
    StrayPick(t);
  }
}
