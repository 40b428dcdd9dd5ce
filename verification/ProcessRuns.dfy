/**
  What holds over every run of the clone, exit and wait protocol: the shape of the tree, the
  bounds on both retry loops, the process table, single reaping, conservation of CPU time, and
  the `has_child_subreaper` flags.
 */
module ProcessRuns {
  import opened Processes
  import opened ProcessProtocol
  import opened CpuTime

  // ----- Tree and retries -----

  /**
    In every state of every run each unreaped process but init lies in exactly one children map,
    the one of the process its parent link names; only zombies other than init have lost their
    map; and every parent chain descends in rank and ends at init.
   */
  lemma TreeSafety(trace: seq<Kernel>, actions: seq<Action>, i: nat, c: Pid)
    requires IsRun(trace, actions) && i < |trace|
    requires c in trace[i].tree.parent && c != INIT_PID
    ensures var t := trace[i].tree;
            && (c !in t.reaped ==> forall p :: IsChild(t, p, c) <==> p == t.parent[c])
            && (c in t.reaped ==> forall p :: !IsChild(t, p, c))
            && (c !in t.children ==> c in t.zombies)
            && INIT_PID in t.children && INIT_PID !in t.reaped
            && Ranked(t)
            && var chain := Ancestors(t, c);
               && chain != [] && chain[|chain| - 1] == INIT_PID
               && forall j, k :: 0 <= j < k < |chain| ==> chain[k] < chain[j] < c
  {
    RunInv(trace, actions, i);
    var t := trace[i].tree;
    ChainEndsAtInit(t, c);
    if c !in t.reaped { ExactlyOneParent(t, c); }
    assert INIT_PID in t.children;
  }

  /**
    Over all runs an action panics exactly when it reads the parent link of a process that is
    reaped already and whose parent is gone; no action of a clone, of a wait or of the exit of an
    unreaped process does.
   */
  lemma PanicExactly(trace: seq<Kernel>, actions: seq<Action>, i: nat)
    requires IsRun(trace, actions) && i < |actions|
    ensures NoPanic(trace[i], actions[i]) <==> !LosesParent(trace[i], actions[i])
    ensures !actions[i].StepExit? || actions[i].p !in trace[i].tree.reaped ==> NoPanic(trace[i], actions[i])
  {
    RunInv(trace, actions, i);
    ActionInv(trace[i], actions[i]);
  }

  lemma SubsetBelow(s: set<Pid>, n: nat)
    requires forall x :: x in s ==> x < n
    ensures |s| <= n
    decreases n
  {
    if n > 0 {
      var rest := s - {n - 1};
      SubsetBelow(rest, n - 1);
      assert n - 1 in s ==> s == rest + {n - 1};
      assert n - 1 !in s ==> s == rest;
    }
  }

  /**
    Both retry loops are bounded by creation rank: a clone retries fewer times than its cloner's
    rank (never without CLONE_PARENT), an exit at most as often as its own rank.  The reaper an
    exit is about to lock was created before it, so children locks nest in rank order.
   */
  lemma RetriesBounded(trace: seq<Kernel>, actions: seq<Action>, i: nat)
    requires IsRun(trace, actions) && i < |trace|
    ensures forall c :: c in trace[i].clones ==>
              var cl := trace[i].clones[c];
              cl.retries < cl.cloner && (!cl.cloneParent ==> cl.retries == 0)
    ensures forall p :: p in trace[i].exits ==>
              var e := trace[i].exits[p];
              && e.retries <= p
              && (e.pc.Move? ==> e.pc.q < p && e.pc.q !in e.failed)
  {
    RunInv(trace, actions, i);
    var k := trace[i];
    forall c | c in k.clones ensures k.clones[c].retries < k.clones[c].cloner {
      assert CloneOk(k.tree, k.nextPid, c, k.clones[c]);
      assert k.clones[c].cloner >= INIT_PID;
    }
    forall p | p in k.exits ensures k.exits[p].retries <= p {
      assert ExitOk(k.tree, p, k.exits[p]);
      SubsetBelow(k.exits[p].failed, p);
    }
  }

  /**
    A failed attempt of an exit met a reaper that is already a zombie; a failed attempt of a
    clone leaves the cloner below an earlier-created process than the one it tried.
   */
  lemma FailureIsProgress(trace: seq<Kernel>, actions: seq<Action>, i: nat)
    requires IsRun(trace, actions) && i < |actions|
    ensures var k, k' := trace[i], trace[i + 1];
            match actions[i]
            case LinkChild(child) =>
              child in k'.clones ==>
                && k'.clones[child].cloner in k'.tree.parent
                && k'.tree.parent[k'.clones[child].cloner] < k.clones[child].target.value
            case StepExit(p) =>
              k'.exits[p].retries > k.exits[p].retries ==>
                && k.exits[p].pc.Move?
                && k.exits[p].pc.q in k.tree.zombies
                && k'.exits[p].failed == k.exits[p].failed + {k.exits[p].pc.q}
            case _ => true
  {
    RunInv(trace, actions, i);
    var k := trace[i];
    match actions[i]
    case LinkChild(child) =>
      assert CloneOk(k.tree, k.nextPid, child, k.clones[child]);
      if k.clones[child].target.value !in k.tree.children {
        RetryMeansEarlierParent(k.tree, k.nextPid, child, k.clones[child]);
      }
    case StepExit(p) => assert ExitOk(k.tree, p, k.exits[p]);
    case _ =>
  }

  /**
    The handle on the parent of an unreaped process is never dropped: that parent still holds the
    process in its children map, so it is unreaped or its own exit has not ended.
   */
  lemma ParentHandleLive(trace: seq<Kernel>, actions: seq<Action>, i: nat, c: Pid)
    requires IsRun(trace, actions) && i < |trace|
    requires c in trace[i].tree.parent && c != INIT_PID && c !in trace[i].tree.reaped
    ensures !Droppable(trace[i], trace[i].tree.parent[c])
  {
    RunInv(trace, actions, i);
    ParentHeld(trace[i], c);
  }

  ghost predicate Reachable(k: Kernel) {
    exists trace, actions :: IsRun(trace, actions) && trace[|trace| - 1] == k
  }

  lemma ReachableStep(k: Kernel, a: Action) returns (k': Kernel)
    requires Reachable(k) && Enabled(k, a)
    ensures k' == Do(k, a) && Reachable(k')
  {
    k' := Do(k, a);
    var trace, actions :| IsRun(trace, actions) && trace[|trace| - 1] == k;
    assert IsRun(trace + [k'], actions + [a]);
    assert (trace + [k'])[|trace + [k']| - 1] == k';
  }

  /** A plain clone by `p` that meets no interference. */
  lemma ReachClone(k: Kernel, p: Pid) returns (k': Kernel)
    requires Reachable(k) && p in k.tree.children && p in k.tree.parent && p !in k.tree.zombies
    requires k.nextPid !in k.clones
    ensures Reachable(k')
    ensures k' == k.(tree := Attach(k.tree, p, k.nextPid), nextPid := k.nextPid + 1)
  {
    var c := k.nextPid;
    var k1 := ReachableStep(k, StartClone(p, false, c));
    var k2 := ReachableStep(k1, ReadRealParent(c));
    k' := ReachableStep(k2, LinkChild(c));
    assert k2.clones - {c} == k.clones;
  }

  /** One step of an exit, as a function of the tree and its program counter. */
  lemma ReachExitStep(k: Kernel, p: Pid) returns (k': Kernel)
    requires Reachable(k) && p in k.exits && !k.exits[p].pc.Finished?
    ensures Reachable(k')
    ensures var next := NextExit(k.tree, p, k.exits[p]);
            k' == k.(tree := next.0, exits := k.exits[p := next.1])
  {
    k' := ReachableStep(k, StepExit(p));
  }

  /** The whole exit of a child of init, with no subreaper around and no interference. */
  lemma ReachExit(k: Kernel, p: Pid) returns (k': Kernel)
    requires Reachable(k) && k.clones == map[]
    requires p != INIT_PID && p in k.tree.children && p in k.tree.parent && p !in k.tree.zombies
    requires k.tree.parent[p] == INIT_PID && INIT_PID in k.tree.children
    requires INIT_PID in k.tree.parent && k.tree.parent[INIT_PID] == NO_PID
    ensures Reachable(k')
    ensures k' == k.(tree := Reparent(k.tree.(zombies := k.tree.zombies + {p}), p, INIT_PID),
                     exits := k.exits[p := Exit(Finished, {}, 0)])
  {
    var k1 := ReachableStep(k, SetZombie(p));
    var k2 := ReachExitStep(k1, p);
    var k3 := ReachExitStep(k2, p);
    k' := ReachExitStep(k3, p);
  }

  /** Init has the child 2, and 2 has the child 3. */
  lemma ReachGrandchild() returns (k: Kernel)
    ensures Reachable(k)
    ensures k == Kernel(Tree(map[1 := 0, 2 := 1, 3 := 2], map[1 := {2}, 2 := {3}, 3 := {}], {}, {}, {}, {}),
                        4, map[], map[])
  {
    var k0 := Kernel(Tree(map[1 := 0], map[1 := {}], {}, {}, {}, {}), 2, map[], map[]);
    assert IsRun([k0], []);
    assert [k0][|[k0]| - 1] == k0;
    var k1 := ReachClone(k0, 1);
    assert k1.tree.children[1] == {2};
    assert k1.tree.parent == map[1 := 0, 2 := 1] && k1.tree.children == map[1 := {2}, 2 := {}];
    k := ReachClone(k1, 2);
    assert k.tree.children[2] == {3};
    assert k.tree.parent == map[1 := 0, 2 := 1, 3 := 2] && k.tree.children == map[1 := {2}, 2 := {3}, 3 := {}];
  }

  /**
    For a reaped process the handle can be gone: process 3 is reaped by its parent 2 between
    setting the zombie flag and reading its parent link, then 2 exits and is reaped.
   */
  lemma ReapedParentHandleCanDrop() returns (k: Kernel)
    ensures Reachable(k)
    ensures 3 in k.exits && k.exits[3].pc.ReadParent? && 3 in k.tree.reaped
    ensures 3 in k.tree.parent && Droppable(k, k.tree.parent[3])
    ensures Enabled(k, StepExit(3)) && !NoPanic(k, StepExit(3))
  {
    var k2 := ReachGrandchild();
    var k3 := ReachableStep(k2, SetZombie(3));
    var k4 := ReachableStep(k3, Wait(2, 3));
    var k5 := ReachExit(k4, 2);
    k := ReachableStep(k5, Wait(1, 2));
  }

  // ----- Process table, reaping and CPU time -----

  /** The process table, the CPU clocks, and the history of what was reaped and ticked. */
  datatype Books = Books(
    table: set<Pid>,
    clock: map<Pid, Cpu>,   // time used by the process itself
    stats: map<Pid, Cpu>,   // time of the children the process has reaped
    reapLog: seq<Pid>,      // the processes reaped so far
    ticked: Cpu)            // all time ticked by processes while unreaped

  function FirstBooks(): Books {
    Books({INIT_PID}, map[INIT_PID := Zero()], map[INIT_PID := Zero()], [], Zero())
  }

  /** What action `a`, taken in state `k`, does to the books. */
  function Record(k: Kernel, b: Books, a: Action): Books {
    match a
    case LinkChild(child) =>
      if child in k.clones && k.clones[child].target.Some? && k.clones[child].target.value in k.tree.children then
        b.(table := b.table + {child}, clock := b.clock[child := Zero()], stats := b.stats[child := Zero()])
      else b
    case Wait(w, c) =>
      if c in b.clock && c in b.stats && w in b.stats then
        b.(table := b.table - {c}, reapLog := b.reapLog + [c],
           stats := b.stats[w := b.stats[w].Plus(b.stats[c].Plus(b.clock[c]))])
      else b
    case Tick(p, time) =>
      if p in b.clock then
        b.(clock := b.clock[p := b.clock[p].Plus(time)],
           ticked := if p in k.tree.reaped then b.ticked else b.ticked.Plus(time))
      else b
    case _ => b
  }

  /** The books after the first `i` actions of a run. */
  function BooksAt(trace: seq<Kernel>, actions: seq<Action>, i: nat): Books
    requires i <= |actions| && |trace| == |actions| + 1
  {
    if i == 0 then FirstBooks() else Record(trace[i - 1], BooksAt(trace, actions, i - 1), actions[i - 1])
  }

  /** The table holds the unreaped processes, and every process has its clocks. */
  ghost predicate TableOk(t: Tree, b: Books) {
    && (forall p :: p in b.table <==> p in t.parent && p !in t.reaped)
    && (forall p :: p in b.clock <==> p in t.parent)
    && (forall p :: p in b.stats <==> p in t.parent)
  }

  /** The log lists exactly the reaped processes, each of them once. */
  ghost predicate LogOk(t: Tree, b: Books) {
    && (forall p :: p in b.reapLog <==> p in t.reaped)
    && (forall i, j :: 0 <= i < j < |b.reapLog| ==> b.reapLog[i] != b.reapLog[j])
  }

  ghost predicate TimeOk(t: Tree, nextPid: Pid, b: Books) {
    TotalTime(b.clock, b.stats, t.reaped, nextPid) == b.ticked
  }

  lemma ExitKeepsBooks(k: Kernel, p: Pid)
    requires p in k.exits
    ensures NextExit(k.tree, p, k.exits[p]).0.parent.Keys == k.tree.parent.Keys
    ensures NextExit(k.tree, p, k.exits[p]).0.reaped == k.tree.reaped
  {
  }

  lemma LinkTable(k: Kernel, b: Books, a: Action)
    requires ClonesOk(k.tree, k.nextPid, k.clones) && a.LinkChild? && Enabled(k, a)
    requires k.tree.reaped <= k.tree.parent.Keys && TableOk(k.tree, b)
    ensures TableOk(Do(k, a).tree, Record(k, b, a))
  {
    assert CloneOk(k.tree, k.nextPid, a.child, k.clones[a.child]);
  }

  lemma WaitTable(k: Kernel, b: Books, a: Action)
    requires WellFormed(k.tree) && a.Wait? && Enabled(k, a) && TableOk(k.tree, b)
    ensures TableOk(Do(k, a).tree, Record(k, b, a))
  {
    assert IsChild(k.tree, a.w, a.c);
  }

  lemma QuietTable(k: Kernel, b: Books, a: Action)
    requires Enabled(k, a) && !a.LinkChild? && !a.Wait? && TableOk(k.tree, b)
    ensures TableOk(Do(k, a).tree, Record(k, b, a))
  {
    if a.StepExit? { ExitKeepsBooks(k, a.p); }
  }

  lemma RecordTable(k: Kernel, b: Books, a: Action)
    requires WellFormed(k.tree) && ClonesOk(k.tree, k.nextPid, k.clones)
    requires Enabled(k, a) && TableOk(k.tree, b)
    ensures TableOk(Do(k, a).tree, Record(k, b, a))
  {
    if a.LinkChild? {
      LinkTable(k, b, a);
    } else if a.Wait? {
      WaitTable(k, b, a);
    } else {
      QuietTable(k, b, a);
    }
  }

  lemma WaitLog(t: Tree, b: Books, c: Pid)
    requires LogOk(t, b) && c !in t.reaped
    ensures forall p :: p in b.reapLog + [c] <==> p in t.reaped + {c}
    ensures forall i, j :: 0 <= i < j < |b.reapLog + [c]| ==> (b.reapLog + [c])[i] != (b.reapLog + [c])[j]
  {
  }

  lemma QuietLog(k: Kernel, b: Books, a: Action)
    requires Enabled(k, a) && !a.Wait? && LogOk(k.tree, b)
    ensures LogOk(Do(k, a).tree, Record(k, b, a))
  {
    if a.StepExit? { ExitKeepsBooks(k, a.p); }
  }

  lemma RecordLog(k: Kernel, b: Books, a: Action)
    requires WellFormed(k.tree) && Enabled(k, a) && TableOk(k.tree, b) && LogOk(k.tree, b)
    ensures LogOk(Do(k, a).tree, Record(k, b, a))
  {
    if a.Wait? {
      assert IsChild(k.tree, a.w, a.c);
      WaitLog(k.tree, b, a.c);
    } else {
      QuietLog(k, b, a);
    }
  }

  /** The books are balanced again after action `a`. */
  ghost predicate Balanced(k: Kernel, b: Books, a: Action)
    requires Enabled(k, a)
  {
    TimeOk(Do(k, a).tree, Do(k, a).nextPid, Record(k, b, a))
  }

  lemma CloneTime(k: Kernel, b: Books, a: Action)
    requires PidsBelow(k.tree, k.nextPid) && a.StartClone? && Enabled(k, a)
    requires TableOk(k.tree, b) && TimeOk(k.tree, k.nextPid, b)
    ensures Balanced(k, b, a)
  {
    TotalTimeGrow(b.clock, b.stats, k.tree.reaped, k.nextPid, a.child + 1);
  }

  lemma LinkTime(k: Kernel, b: Books, a: Action)
    requires ClonesOk(k.tree, k.nextPid, k.clones) && a.LinkChild? && Enabled(k, a)
    requires TableOk(k.tree, b) && TimeOk(k.tree, k.nextPid, b)
    ensures Balanced(k, b, a)
  {
    assert CloneOk(k.tree, k.nextPid, a.child, k.clones[a.child]);
    TotalTimeNewEntry(b.clock, b.stats, k.tree.reaped, a.child, k.nextPid);
  }

  lemma WaitTime(k: Kernel, b: Books, a: Action)
    requires WellFormed(k.tree) && PidsBelow(k.tree, k.nextPid) && a.Wait? && Enabled(k, a)
    requires TableOk(k.tree, b) && TimeOk(k.tree, k.nextPid, b)
    ensures Balanced(k, b, a)
  {
    assert IsChild(k.tree, a.w, a.c);
    assert a.w !in k.tree.reaped && a.w != a.c;
    ReapConservesTime(b.clock, b.stats, k.tree.reaped, a.w, a.c, k.nextPid);
  }

  lemma TickBalances(k: Kernel, b: Books, a: Action)
    requires PidsBelow(k.tree, k.nextPid) && a.Tick? && Enabled(k, a)
    requires TableOk(k.tree, b) && TimeOk(k.tree, k.nextPid, b)
    ensures Balanced(k, b, a)
  {
    if a.p in k.tree.reaped {
      TickTimeLost(b.clock, b.stats, k.tree.reaped, a.p, a.time, k.nextPid);
    } else {
      TickTime(b.clock, b.stats, k.tree.reaped, a.p, a.time, k.nextPid);
    }
  }

  /** Actions other than clone, wait and tick leave clocks, statistics and reaped processes alone. */
  lemma QuietTime(k: Kernel, b: Books, a: Action)
    requires Enabled(k, a) && TimeOk(k.tree, k.nextPid, b)
    requires !a.StartClone? && !a.LinkChild? && !a.Wait? && !a.Tick?
    ensures Balanced(k, b, a)
  {
    if a.StepExit? { ExitKeepsBooks(k, a.p); }
  }

  lemma RecordTime(k: Kernel, b: Books, a: Action)
    requires WellFormed(k.tree) && PidsBelow(k.tree, k.nextPid) && ClonesOk(k.tree, k.nextPid, k.clones)
    requires Enabled(k, a) && TableOk(k.tree, b) && TimeOk(k.tree, k.nextPid, b)
    ensures Balanced(k, b, a)
  {
    if a.StartClone? {
      CloneTime(k, b, a);
    } else if a.LinkChild? {
      LinkTime(k, b, a);
    } else if a.Wait? {
      WaitTime(k, b, a);
    } else if a.Tick? {
      TickBalances(k, b, a);
    } else {
      QuietTime(k, b, a);
    }
  }

  lemma FirstBooksOk(k: Kernel)
    requires Init(k)
    ensures TableOk(k.tree, FirstBooks()) && LogOk(k.tree, FirstBooks()) && TimeOk(k.tree, k.nextPid, FirstBooks())
  {
    var b := FirstBooks();
    forall p: Pid ensures Weight(b.clock, b.stats, {}, p) == Zero() {
      assert At(b.clock, p) == Zero() && At(b.stats, p) == Zero();
      ZeroPlusZero();
    }
    SumGrow(Weights(b.clock, b.stats, {}), 0, 2);
  }

  /**
    In every run: the process table is the set of unreaped processes (so init is always found),
    no process is reaped twice, and own plus reaped-children time, summed over the unreaped
    processes, is exactly the time ticked by processes while they were unreaped.
   */
  lemma {:induction false} BooksBalance(trace: seq<Kernel>, actions: seq<Action>, i: nat)
    requires IsRun(trace, actions) && i <= |actions|
    ensures var t, b := trace[i].tree, BooksAt(trace, actions, i);
            && TableOk(t, b) && INIT_PID in b.table
            && LogOk(t, b)
            && TimeOk(t, trace[i].nextPid, b)
    decreases i
  {
    RunInv(trace, actions, i);
    if i == 0 {
      FirstBooksOk(trace[0]);
    } else {
      BooksBalance(trace, actions, i - 1);
      RunInv(trace, actions, i - 1);
      var k, b, a := trace[i - 1], BooksAt(trace, actions, i - 1), actions[i - 1];
      RecordTable(k, b, a);
      RecordLog(k, b, a);
      RecordTime(k, b, a);
    }
  }

  // ----- The subreaper flags -----

  /** A process whose parent has `has_child_subreaper` has it too. */
  ghost predicate FlagClosed(t: Tree) {
    forall x {:trigger t.parent[x]} :: x in t.parent && x != INIT_PID ==>
      (t.parent[x] in t.hasSubreaper ==> x in t.hasSubreaper)
  }

  /** Closure, also along the walks to a reaper in flight. */
  ghost predicate FlagsOk(k: Kernel) {
    && FlagClosed(k.tree)
    && (forall p :: p in k.exits && !k.exits[p].pc.ReadParent? && !k.exits[p].pc.Finished? ==>
          (k.exits[p].pc.q in k.tree.hasSubreaper ==> p in k.tree.hasSubreaper))
  }

  lemma {:induction false} InitFlagReachesAll(t: Tree, x: Pid)
    requires Ranked(t) && FlagClosed(t) && INIT_PID in t.hasSubreaper && x in t.parent
    ensures x in t.hasSubreaper
    decreases x
  {
    if x != INIT_PID { InitFlagReachesAll(t, t.parent[x]); }
  }

  lemma ReparentFlags(t: Tree, p: Pid, q: Pid)
    requires Linked(t) && FlagClosed(t) && p in t.children && q in t.children
    requires q in t.hasSubreaper ==> p in t.hasSubreaper
    ensures FlagClosed(Reparent(t, p, q))
  {
    forall c | c in t.children[p] ensures c in t.parent && t.parent[c] == p && c != INIT_PID {
      assert IsChild(t, p, c);
    }
  }

  lemma WalkFlags(t: Tree, p: Pid, e: Exit)
    requires WellFormed(t) && FlagClosed(t) && ExitOk(t, p, e) && !e.pc.Finished?
    requires !e.pc.ReadParent? && e.pc.q in t.hasSubreaper ==> p in t.hasSubreaper
    requires e.pc.Move? ==> e.pc.q !in t.children
    ensures var next := NextExit(t, p, e).1.pc;
            !next.ReadParent? && !next.Finished? && next.q in t.hasSubreaper ==> p in t.hasSubreaper
  {
    assert t.parent[p] in t.parent;
    match e.pc
    case AtAncestor(q) => if INIT_PID in t.hasSubreaper { InitFlagReachesAll(t, p); }
    case GoUp(q) => assert t.parent[q] in t.hasSubreaper ==> q in t.hasSubreaper;
    case _ =>
  }

  /** The action does not change `has_child_subreaper` explicitly. */
  predicate KeepsFlag(k: Kernel, a: Action) {
    a.SetSubreaper? ==> (a.hasSubreaper <==> a.p in k.tree.hasSubreaper)
  }

  lemma ExitFlags(k: Kernel, p: Pid)
    requires Inv(k) && FlagsOk(k) && Enabled(k, StepExit(p))
    ensures FlagsOk(Do(k, StepExit(p)))
  {
    assert ExitOk(k.tree, p, k.exits[p]);
    if k.exits[p].pc.Move? && k.exits[p].pc.q in k.tree.children {
      ReparentFlags(k.tree, p, k.exits[p].pc.q);
    } else {
      WalkExitOk(k.tree, p, k.exits[p]);
      WalkFlags(k.tree, p, k.exits[p]);
    }
  }

  lemma AttachFlags(t: Tree, p: Pid, child: Pid)
    requires Ranked(t) && FlagClosed(t) && p in t.children && child !in t.parent && t.children.Keys <= t.parent.Keys
    ensures FlagClosed(Attach(t, p, child))
  {
    var u := Attach(t, p, child);
    forall x | x in u.parent && x != INIT_PID && u.parent[x] in u.hasSubreaper ensures x in u.hasSubreaper {
      if x != child { assert t.parent[x] in t.parent; }
    }
  }

  lemma LinkFlags(k: Kernel, child: Pid)
    requires Inv(k) && FlagsOk(k) && Enabled(k, LinkChild(child))
    requires child !in k.tree.parent
    ensures FlagsOk(Do(k, LinkChild(child)))
  {
    var k' := Do(k, LinkChild(child));
    if k.clones[child].target.value in k.tree.children {
      AttachFlags(k.tree, k.clones[child].target.value, child);
    }
    forall p | p in k'.exits && !k'.exits[p].pc.ReadParent? && !k'.exits[p].pc.Finished?
      ensures k'.exits[p].pc.q in k'.tree.hasSubreaper ==> p in k'.tree.hasSubreaper
    {
      assert ExitOk(k.tree, p, k.exits[p]);
    }
  }

  /**
    Clone, exit and wait keep `has_child_subreaper` closed under descendants in every
    interleaving; only an explicit change of that flag can break the closure.
   */
  lemma FlagsPreserved(k: Kernel, a: Action)
    requires Inv(k) && FlagsOk(k) && Enabled(k, a)
    requires KeepsFlag(k, a)
    ensures FlagsOk(Do(k, a))
  {
    match a
    case LinkChild(child) =>
      assert CloneOk(k.tree, k.nextPid, child, k.clones[child]);
      LinkFlags(k, child);
    case StepExit(p) => ExitFlags(k, p);
    case SetSubreaper(p, _, _) => assert Do(k, a).tree.hasSubreaper == k.tree.hasSubreaper;
    case _ =>
  }

  lemma FlagsStep(trace: seq<Kernel>, actions: seq<Action>, i: nat)
    requires IsRun(trace, actions) && i < |actions|
    requires FlagsOk(trace[i]) && KeepsFlag(trace[i], actions[i])
    ensures FlagsOk(trace[i + 1])
  {
    RunInv(trace, actions, i);
    FlagsPreserved(trace[i], actions[i]);
  }

  /** Once closed, the flags stay closed over any stretch of a run that does not change them explicitly. */
  lemma {:induction false} FlagsStayClosed(trace: seq<Kernel>, actions: seq<Action>, i: nat, j: nat)
    requires IsRun(trace, actions) && i <= j < |trace| && FlagsOk(trace[i])
    requires forall n {:trigger actions[n]} :: i <= n < j ==> KeepsFlag(trace[n], actions[n])
    ensures FlagsOk(trace[j])
    decreases j
  {
    if i < j {
      FlagsStayClosed(trace, actions, i, j - 1);
      assert KeepsFlag(trace[j - 1], actions[j - 1]);
      FlagsStep(trace, actions, j - 1);
    }
  }
}
