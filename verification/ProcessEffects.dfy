/**
  What the calls achieve: where a cloned child ends, where the children of an exiting process go,
  and to whom CPU time is credited.  All of it is said through parent links, children maps and the
  actions of a run.
 */
module ProcessEffects {
  import opened Processes
  import opened ProcessProtocol
  import opened ProcessRuns
  import opened ExitPath
  import opened CpuTime
  import opened Wrappers

  // ----- Exit -----

  /** The parent links of the unreaped children of `p` now name `r`; all others are the same. */
  ghost predicate LinksMoved(t: Tree, u: Tree, p: Pid, r: Pid) {
    && u.parent.Keys == t.parent.Keys
    && (forall c :: c in t.parent ==> u.parent[c] == if c !in t.reaped && t.parent[c] == p then r else t.parent[c])
  }

  /** The children of `p` have joined those of `r`, and the map of `p` is gone; all others are the same. */
  ghost predicate MapsMoved(t: Tree, u: Tree, p: Pid, r: Pid) {
    && u.children.Keys == t.children.Keys - {p}
    && (forall x, c :: IsChild(u, x, c) <==> x != p && (IsChild(t, x, c) || (x == r && IsChild(t, p, c))))
  }

  /** Between `t` and `u` the children of `p` have become children of `r`, and nothing else has happened. */
  ghost predicate HandedOver(t: Tree, u: Tree, p: Pid, r: Pid) {
    LinksMoved(t, u, p, r) && MapsMoved(t, u, p, r) && u == t.(parent := u.parent, children := u.children)
  }

  /** The children map of `p` lists the unreaped processes whose parent link names `p`. */
  lemma ChildrenAreLinks(t: Tree, p: Pid, c: Pid)
    requires WellFormed(t) && p in t.children && p != NO_PID && c in t.parent
    ensures c in t.children[p] <==> c !in t.reaped && t.parent[c] == p
  {
    if c != INIT_PID && c !in t.reaped { assert IsChild(t, t.parent[c], c); }
    if c in t.children[p] { assert IsChild(t, p, c); }
  }

  lemma ReparentLinks(t: Tree, p: Pid, r: Pid)
    requires p in t.children && r in t.children
    requires forall c :: c in t.parent ==> (c in t.children[p] <==> c !in t.reaped && t.parent[c] == p)
    ensures LinksMoved(t, Reparent(t, p, r), p, r)
  {
  }

  lemma ReparentMaps(t: Tree, p: Pid, r: Pid)
    requires p in t.children && r in t.children && p != r
    ensures MapsMoved(t, Reparent(t, p, r), p, r)
  {
    var u := Reparent(t, p, r);
    forall x, c ensures IsChild(u, x, c) <==> x != p && (IsChild(t, x, c) || (x == r && IsChild(t, p, c))) {}
  }

  lemma ReparentHandsOver(t: Tree, p: Pid, r: Pid)
    requires WellFormed(t) && p in t.children && r in t.children && p != r && p != NO_PID
    ensures HandedOver(t, Reparent(t, p, r), p, r)
  {
    forall c | c in t.parent ensures c in t.children[p] <==> c !in t.reaped && t.parent[c] == p {
      ChildrenAreLinks(t, p, c);
    }
    ReparentLinks(t, p, r);
    ReparentMaps(t, p, r);
  }

  /** Where a walk that has come to `q` ends. */
  function PickedAbove(t: Tree, q: Pid): Pid
    requires Ranked(t) && q in t.parent
  {
    if Flagged(t, q) then NearestReaper(t, q) else INIT_PID
  }

  /** The walk for `p` is on its way to the reaper `r`. */
  ghost predicate Heads(t: Tree, p: Pid, pc: ExitPc, r: Pid)
    requires Ranked(t)
  {
    match pc
    case ReadParent => true
    case AtAncestor(q) => q in t.parent && PickedAbove(t, q) == r
    case LoadSubreaper(q) => q in t.parent && q != INIT_PID && q in t.hasSubreaper && PickedAbove(t, q) == r
    case LoadZombie(q, isReaper) =>
      && q in t.parent && q != INIT_PID && q in t.hasSubreaper && PickedAbove(t, q) == r
      && (isReaper <==> q in t.isSubreaper)
    case GoUp(q) =>
      q in t.parent && q != INIT_PID && q in t.hasSubreaper && PickedAbove(t, q) == r && !Eligible(t, q)
    case Move(q) => q == r
    case Finished => false
  }

  lemma StepHeads(t: Tree, p: Pid, e: Exit, r: Pid)
    requires Ranked(t) && p in t.parent && p != INIT_PID && r == PickedReaper(t, p)
    requires Heads(t, p, e.pc, r) && !e.pc.Move?
    ensures NextExit(t, p, e).0 == t && Heads(t, p, NextExit(t, p, e).1.pc, r)
    ensures NextExit(t, p, e).1 == e.(pc := NextExit(t, p, e).1.pc)
  {
    assert t.parent[p] in t.parent;
    match e.pc
    case AtAncestor(q) => assert t.parent[q] == NO_PID <==> q == INIT_PID;
    case GoUp(q) => assert t.parent[q] in t.parent;
    case _ =>
  }

  /** Steps of the exit of `p`; nobody else takes a step. */
  ghost predicate OwnSteps(trace: seq<Kernel>, actions: seq<Action>, p: Pid) {
    && |trace| == |actions| + 1
    && (forall i :: 0 <= i < |actions| ==>
          && (actions[i] == StepExit(p) || actions[i] == RestartWalk(p))
          && Enabled(trace[i], actions[i]) && trace[i + 1] == Do(trace[i], actions[i]))
  }

  /** The exit is about to look for a reaper: it has just begun, or the reaper it found turns out to be gone. */
  predicate Searching(k: Kernel, p: Pid) {
    p in k.exits && (k.exits[p].pc.ReadParent? || (k.exits[p].pc.Move? && k.exits[p].pc.q !in k.tree.children))
  }

  predicate Done(k: Kernel, p: Pid) {
    p in k.exits && k.exits[p].pc.Finished?
  }

  /** What has become of `k0` while nobody interfered. */
  ghost predicate OnTheWay(k0: Kernel, k: Kernel, p: Pid, r: Pid)
    requires Ranked(k0.tree)
  {
    && p in k.exits && k == k0.(tree := k.tree, exits := k0.exits[p := k.exits[p]])
    && (if k.exits[p].pc.Finished? then
          p in k0.tree.children && r in k0.tree.children && k.tree == Reparent(k0.tree, p, r)
        else
          k.tree == k0.tree && (Searching(k, p) || Heads(k.tree, p, k.exits[p].pc, r)))
  }

  lemma PickedHasChildren(t: Tree, p: Pid)
    requires WellFormed(t) && p in t.parent && p != INIT_PID
    ensures PickedReaper(t, p) in t.children && PickedReaper(t, p) < p
  {
    NearestIsEarlier(t, t.parent[p]);
  }

  lemma OwnStep(k0: Kernel, k: Kernel, p: Pid, r: Pid, a: Action)
    requires Ranked(k0.tree) && p in k0.tree.parent && p in k0.tree.children && p != INIT_PID
    requires r == PickedReaper(k0.tree, p) && r in k0.tree.children
    requires OnTheWay(k0, k, p, r) && Enabled(k, a) && (a == StepExit(p) || a == RestartWalk(p))
    ensures OnTheWay(k0, Do(k, a), p, r)
  {
    if a == StepExit(p) && !k.exits[p].pc.Move? { StepHeads(k.tree, p, k.exits[p], r); }
  }

  /** An exiting process that is still searching has its children map. */
  lemma SearchingHasChildren(k: Kernel, p: Pid)
    requires Inv(k) && Searching(k, p)
    ensures p in k.tree.parent && p in k.tree.children && p != INIT_PID && p in k.tree.zombies
  {
    assert ExitOk(k.tree, p, k.exits[p]);
  }

  lemma {:induction false} OwnStepsStay(trace: seq<Kernel>, actions: seq<Action>, p: Pid, r: Pid, i: nat)
    requires OwnSteps(trace, actions, p) && i < |trace| && Searching(trace[0], p) && Ranked(trace[0].tree)
    requires p in trace[0].tree.parent && p in trace[0].tree.children && p != INIT_PID
    requires r == PickedReaper(trace[0].tree, p) && r in trace[0].tree.children
    ensures OnTheWay(trace[0], trace[i], p, r)
    decreases i
  {
    if i > 0 {
      OwnStepsStay(trace, actions, p, r, i - 1);
      assert trace[i - 1 + 1] == Do(trace[i - 1], actions[i - 1]);
      OwnStep(trace[0], trace[i - 1], p, r, actions[i - 1]);
    }
  }

  lemma OwnStepsOnTheWay(trace: seq<Kernel>, actions: seq<Action>, p: Pid, i: nat)
    requires OwnSteps(trace, actions, p) && i < |trace| && Inv(trace[0]) && Searching(trace[0], p)
    ensures p in trace[0].tree.parent && p != INIT_PID
    ensures OnTheWay(trace[0], trace[i], p, PickedReaper(trace[0].tree, p))
  {
    SearchingHasChildren(trace[0], p);
    PickedHasChildren(trace[0].tree, p);
    OwnStepsStay(trace, actions, p, PickedReaper(trace[0].tree, p), i);
  }

  /**
    An exit that searches a reaper, for the first time or again, and that nobody interferes with
    from then on: when it has finished, exactly the unreaped processes whose parent link named `p`
    are children of one process `r`, which is init or the nearest live subreaper among the
    ancestors of `p`.  It is the nearest one whenever the flags are handed down on a settled tree.
   */
  lemma ExitHandsOver(trace: seq<Kernel>, actions: seq<Action>, p: Pid) returns (r: Pid)
    requires OwnSteps(trace, actions, p) && Inv(trace[0]) && Searching(trace[0], p) && Done(trace[|actions|], p)
    ensures p in trace[0].tree.parent && p != INIT_PID && r == PickedReaper(trace[0].tree, p)
    ensures r == INIT_PID || IsNearestReaper(trace[0].tree, p, r)
    ensures var t := trace[0].tree;
            FlagLinked(t) && Settled(t) && t.isSubreaper <= t.hasSubreaper && p !in t.reaped ==>
              IsNearestReaper(t, p, r)
    ensures HandedOver(trace[0].tree, trace[|actions|].tree, p, r)
  {
    var t := trace[0].tree;
    OwnStepsOnTheWay(trace, actions, p, |actions|);
    r := PickedReaper(t, p);
    PickedHasChildren(t, p);
    ReparentHandsOver(t, p, r);
    NearestReaperOnChain(t, p);
    if FlagLinked(t) && Settled(t) && t.isSubreaper <= t.hasSubreaper && p !in t.reaped { PickedIsNearest(t, p); }
  }

  lemma {:induction false} ZombieKeepsPick(t: Tree, p: Pid, q: Pid)
    requires Ranked(t) && q in t.parent && q < p
    ensures var u := t.(zombies := t.zombies + {p});
            Ranked(u) && NearestReaper(u, q) == NearestReaper(t, q) && Flagged(u, q) == Flagged(t, q)
    decreases q
  {
    if q != INIT_PID && !Eligible(t, q) { ZombieKeepsPick(t, p, t.parent[q]); }
  }

  /** Setting the zombie flag begins the search and changes neither the tree nor the reaper to be found. */
  lemma ExitBegins(k: Kernel, p: Pid)
    requires Inv(k) && Enabled(k, SetZombie(p)) && p != INIT_PID
    ensures var k1 := Do(k, SetZombie(p));
            && Searching(k1, p) && k1.tree == k.tree.(zombies := k.tree.zombies + {p})
            && Ranked(k1.tree) && PickedReaper(k1.tree, p) == PickedReaper(k.tree, p)
  {
    assert k.tree.parent[p] >= INIT_PID;
    ZombieKeepsPick(k.tree, p, k.tree.parent[p]);
  }

  /** Bounds the steps that an exit with nobody interfering still takes. */
  function StepsLeft(k: Kernel, p: Pid): nat
    requires p in k.exits
  {
    match k.exits[p].pc
    case ReadParent => 4 * p + 1
    case AtAncestor(q) => 4 * q + 4
    case LoadSubreaper(q) => 4 * q + 3
    case LoadZombie(q, _) => 4 * q + 2
    case GoUp(q) => 4 * q + 1
    case Move(q) => if q in k.tree.children then 1 else 4 * p + 2
    case Finished => 0
  }

  lemma OwnStepNearer(k0: Kernel, k: Kernel, p: Pid, r: Pid)
    requires Ranked(k0.tree) && p in k0.tree.parent && p in k0.tree.children && p != INIT_PID
    requires r == PickedReaper(k0.tree, p) && r in k0.tree.children && INIT_PID in k0.tree.children
    requires OnTheWay(k0, k, p, r) && Enabled(k, StepExit(p))
    ensures StepsLeft(Do(k, StepExit(p)), p) < StepsLeft(k, p)
  {
    var t := k.tree;
    if k.exits[p].pc.Finished? || k.exits[p].pc.Move? {
    } else {
      assert t.parent[p] < p && t.parent[p] >= INIT_PID;
      StepHeads(t, p, k.exits[p], r);
      if k.exits[p].pc.GoUp? { assert t.parent[k.exits[p].pc.q] < k.exits[p].pc.q; }
    }
  }

  lemma ExtendOwnSteps(trace: seq<Kernel>, actions: seq<Action>, p: Pid)
    requires OwnSteps(trace, actions, p) && Enabled(trace[|actions|], StepExit(p))
    ensures OwnSteps(trace + [Do(trace[|actions|], StepExit(p))], actions + [StepExit(p)], p)
  {
    var k' := Do(trace[|actions|], StepExit(p));
    var trace', actions' := trace + [k'], actions + [StepExit(p)];
    forall i | 0 <= i < |actions'|
      ensures actions'[i] == StepExit(p) || actions'[i] == RestartWalk(p)
      ensures Enabled(trace'[i], actions'[i]) && trace'[i + 1] == Do(trace'[i], actions'[i])
    {
      if i < |actions| {
        assert actions'[i] == actions[i] && trace'[i] == trace[i] && trace'[i + 1] == trace[i + 1];
      } else {
        assert actions'[i] == StepExit(p) && trace'[i] == trace[|actions|] && trace'[i + 1] == k';
      }
    }
  }

  lemma {:induction false} FinishExit(trace0: seq<Kernel>, actions0: seq<Action>, p: Pid)
    returns (trace: seq<Kernel>, actions: seq<Action>)
    requires OwnSteps(trace0, actions0, p) && Inv(trace0[0]) && Searching(trace0[0], p) && p in trace0[|actions0|].exits
    ensures OwnSteps(trace, actions, p) && trace[0] == trace0[0] && Done(trace[|actions|], p)
    decreases StepsLeft(trace0[|actions0|], p)
  {
    var k0, k := trace0[0], trace0[|actions0|];
    trace, actions := trace0, actions0;
    if !Done(k, p) {
      SearchingHasChildren(k0, p);
      OwnStepsOnTheWay(trace0, actions0, p, |actions0|);
      PickedHasChildren(k0.tree, p);
      OwnStepNearer(k0, k, p, PickedReaper(k0.tree, p));
      ExtendOwnSteps(trace0, actions0, p);
      trace, actions := FinishExit(trace0 + [Do(k, StepExit(p))], actions0 + [StepExit(p)], p);
    }
  }

  /** And it does finish. */
  lemma ExitFinishes(k: Kernel, p: Pid) returns (trace: seq<Kernel>, actions: seq<Action>)
    requires Inv(k) && Searching(k, p)
    ensures OwnSteps(trace, actions, p) && trace[0] == k && Done(trace[|actions|], p)
  {
    assert OwnSteps([k], [], p);
    trace, actions := FinishExit([k], [], p);
  }

  // ----- Clone -----

  /** A target that still has its children map is the real parent of this moment. */
  ghost predicate TargetCurrent(t: Tree, cl: Clone) {
    cl.target.Some? && cl.target.value in t.children ==> cl.cloner in t.parent && cl.target.value == RealParent(t, cl)
  }

  ghost predicate TargetsCurrent(t: Tree, clones: map<Pid, Clone>) {
    forall c :: c in clones ==> TargetCurrent(t, clones[c])
  }

  lemma AttachTargets(t: Tree, n: Pid, q: Pid, child: Pid, clones: map<Pid, Clone>)
    requires ClonesOk(t, n, clones) && TargetsCurrent(t, clones) && q in t.children && child !in t.parent
    ensures TargetsCurrent(Attach(t, q, child), clones)
  {
    forall c | c in clones ensures TargetCurrent(Attach(t, q, child), clones[c]) {
      assert CloneOk(t, n, c, clones[c]);
    }
  }

  /** Handing children over clears the map that an outdated clone would have locked. */
  lemma MoveTargets(t: Tree, n: Pid, p: Pid, q: Pid, clones: map<Pid, Clone>)
    requires WellFormed(t) && p in t.children && q in t.children && p != q
    requires ClonesOk(t, n, clones) && TargetsCurrent(t, clones)
    ensures TargetsCurrent(Reparent(t, p, q), clones)
  {
    forall c | c in clones ensures TargetCurrent(Reparent(t, p, q), clones[c]) {
      assert CloneOk(t, n, c, clones[c]);
      if clones[c].cloner in t.children[p] { assert IsChild(t, p, clones[c].cloner); }
    }
  }

  lemma SameTargets(t: Tree, u: Tree, clones: map<Pid, Clone>)
    requires TargetsCurrent(t, clones) && u.parent == t.parent && u.children.Keys == t.children.Keys
    ensures TargetsCurrent(u, clones)
  {
    forall c | c in clones ensures TargetCurrent(u, clones[c]) {
      assert TargetCurrent(t, clones[c]);
    }
  }

  lemma LinkTargets(k: Kernel, child: Pid)
    requires Inv(k) && TargetsCurrent(k.tree, k.clones) && Enabled(k, LinkChild(child))
    ensures var k' := Do(k, LinkChild(child)); TargetsCurrent(k'.tree, k'.clones)
  {
    assert CloneOk(k.tree, k.nextPid, child, k.clones[child]);
    if k.clones[child].target.value in k.tree.children {
      AttachTargets(k.tree, k.nextPid, k.clones[child].target.value, child, k.clones);
    }
  }

  lemma ExitTargets(k: Kernel, p: Pid)
    requires Inv(k) && TargetsCurrent(k.tree, k.clones) && Enabled(k, StepExit(p))
    ensures var k' := Do(k, StepExit(p)); TargetsCurrent(k'.tree, k'.clones)
  {
    var e := k.exits[p];
    assert ExitOk(k.tree, p, e);
    if e.pc.Move? && e.pc.q in k.tree.children { MoveTargets(k.tree, k.nextPid, p, e.pc.q, k.clones); }
  }

  lemma OtherTargets(k: Kernel, a: Action)
    requires Inv(k) && TargetsCurrent(k.tree, k.clones) && Enabled(k, a) && !a.LinkChild? && !a.StepExit?
    ensures TargetsCurrent(Do(k, a).tree, Do(k, a).clones)
  {
    SameTargets(k.tree, Do(k, a).tree, k.clones);
    if a.ReadRealParent? { assert CloneOk(k.tree, k.nextPid, a.child, k.clones[a.child]); }
  }

  lemma {:induction false} RunTargets(trace: seq<Kernel>, actions: seq<Action>, i: nat)
    requires IsRun(trace, actions) && i < |trace|
    ensures TargetsCurrent(trace[i].tree, trace[i].clones)
    decreases i
  {
    if i > 0 {
      RunTargets(trace, actions, i - 1);
      RunInv(trace, actions, i - 1);
      var k, a := trace[i - 1], actions[i - 1];
      if a.LinkChild? {
        LinkTargets(k, a.child);
      } else if a.StepExit? {
        ExitTargets(k, a.p);
      } else {
        OtherTargets(k, a);
      }
    }
  }

  /** `child` is new in `u`, below `q`, with the flag of `q`; nothing else has changed. */
  ghost predicate Joined(t: Tree, u: Tree, child: Pid, q: Pid) {
    && child !in t.parent && u.parent.Keys == t.parent.Keys + {child} && u.parent[child] == q
    && (forall x :: x in t.parent ==> u.parent[x] == t.parent[x])
    && u.children.Keys == t.children.Keys + {child}
    && (forall x, c :: IsChild(u, x, c) <==> IsChild(t, x, c) || (x == q && c == child))
    && u.zombies == t.zombies && u.reaped == t.reaped && u.isSubreaper == t.isSubreaper
    && (forall x :: x != child ==> (x in u.hasSubreaper <==> x in t.hasSubreaper))
    && (child in u.hasSubreaper <==> q in t.hasSubreaper || child in t.hasSubreaper)
  }

  lemma AttachJoins(t: Tree, q: Pid, child: Pid)
    requires WellFormed(t) && q in t.children && child !in t.parent
    ensures Joined(t, Attach(t, q, child), child, q)
  {
    forall x, c ensures IsChild(Attach(t, q, child), x, c) <==> IsChild(t, x, c) || (x == q && c == child) {}
  }

  lemma LinkOutcome(k: Kernel, child: Pid)
    requires WellFormed(k.tree) && Enabled(k, LinkChild(child))
    requires CloneOk(k.tree, k.nextPid, child, k.clones[child]) && TargetCurrent(k.tree, k.clones[child])
    ensures var k', cl := Do(k, LinkChild(child)), k.clones[child];
            if child in k'.clones then
              k'.tree == k.tree && k'.clones[child] == cl.(target := None, retries := cl.retries + 1)
            else
              Joined(k.tree, k'.tree, child, if cl.cloneParent then k.tree.parent[cl.cloner] else cl.cloner)
  {
    var q := k.clones[child].target.value;
    if q in k.tree.children { AttachJoins(k.tree, q, child); }
  }

  /**
    In every interleaving a clone that links its child puts it below the cloner, or under
    CLONE_PARENT below the process that is the parent of the cloner at that very moment, even if
    the cloner was handed to a reaper after the clone had read its parent.  A clone that fails to
    link changes nothing and reads the parent again.
   */
  lemma LinkPlacesChild(trace: seq<Kernel>, actions: seq<Action>, i: nat, child: Pid)
    requires IsRun(trace, actions) && i < |actions| && actions[i] == LinkChild(child)
    ensures var cl := trace[i].clones[child];
            && cl.cloner in trace[i].tree.parent
            && if child in trace[i + 1].clones then
                 && trace[i + 1].tree == trace[i].tree
                 && trace[i + 1].clones[child] == cl.(target := None, retries := cl.retries + 1)
               else
                 Joined(trace[i].tree, trace[i + 1].tree, child,
                        if cl.cloneParent then trace[i].tree.parent[cl.cloner] else cl.cloner)
  {
    RunInv(trace, actions, i);
    RunTargets(trace, actions, i);
    assert CloneOk(trace[i].tree, trace[i].nextPid, child, trace[i].clones[child]);
    LinkOutcome(trace[i], child);
  }

  /** A clone in flight that has to read the parent succeeds in one attempt if nobody interferes. */
  lemma CloneLinks(k: Kernel, child: Pid)
    requires Inv(k) && child in k.clones && k.clones[child].target.None?
    ensures Enabled(k, ReadRealParent(child)) && k.clones[child].cloner in k.tree.parent
    ensures var k1 := Do(k, ReadRealParent(child));
            && Enabled(k1, LinkChild(child))
            && var k2 := Do(k1, LinkChild(child));
               && child !in k2.clones
               && Joined(k.tree, k2.tree, child,
                         if k.clones[child].cloneParent then k.tree.parent[k.clones[child].cloner]
                         else k.clones[child].cloner)
  {
    var cl := k.clones[child];
    assert CloneOk(k.tree, k.nextPid, child, cl);
    var q := if cl.cloneParent then k.tree.parent[cl.cloner] else cl.cloner;
    if cl.cloneParent { assert IsChild(k.tree, q, cl.cloner); }
    assert q in k.tree.children;
    AttachJoins(k.tree, q, child);
  }

  /** The whole call, with nobody interfering. */
  lemma CloneSucceeds(k: Kernel, cloner: Pid, cloneParent: bool, child: Pid)
    requires Inv(k) && Enabled(k, StartClone(cloner, cloneParent, child))
    ensures var k1 := Do(k, StartClone(cloner, cloneParent, child));
            && Enabled(k1, ReadRealParent(child))
            && var k2 := Do(k1, ReadRealParent(child));
               && Enabled(k2, LinkChild(child))
               && var k3 := Do(k2, LinkChild(child));
                  && child !in k3.clones
                  && Joined(k.tree, k3.tree, child, if cloneParent then k.tree.parent[cloner] else cloner)
  {
    StartCloneInv(k, cloner, cloneParent, child);
    CloneLinks(Do(k, StartClone(cloner, cloneParent, child)), child);
  }

  // ----- CPU time -----

  /** The time process `p` has used in the first `i` actions. */
  function TickedBy(actions: seq<Action>, i: nat, p: Pid): Cpu
    requires i <= |actions|
  {
    if i == 0 then Zero()
    else
      var before := TickedBy(actions, i - 1, p);
      if actions[i - 1].Tick? && actions[i - 1].p == p then before.Plus(actions[i - 1].time) else before
  }

  /**
    The time of the children that `w` has reaped: what each had used by then, and what it had been
    credited with itself.
   */
  function CreditedTo(actions: seq<Action>, i: nat, w: Pid): Cpu
    requires i <= |actions|
  {
    if i == 0 then Zero()
    else
      var before := CreditedTo(actions, i - 1, w);
      if actions[i - 1].Wait? && actions[i - 1].w == w then
        var c := actions[i - 1].c;
        before.Plus(CreditedTo(actions, i - 1, c).Plus(TickedBy(actions, i - 1, c)))
      else before
  }

  lemma RecordClock(k: Kernel, b: Books, a: Action, p: Pid)
    requires WellFormed(k.tree) && ClonesOk(k.tree, k.nextPid, k.clones) && Enabled(k, a) && TableOk(k.tree, b)
    ensures At(Record(k, b, a).clock, p)
         == if a.Tick? && a.p == p then At(b.clock, p).Plus(a.time) else At(b.clock, p)
  {
    if a.LinkChild? { assert CloneOk(k.tree, k.nextPid, a.child, k.clones[a.child]); }
  }

  lemma RecordStats(k: Kernel, b: Books, a: Action, p: Pid)
    requires WellFormed(k.tree) && ClonesOk(k.tree, k.nextPid, k.clones) && Enabled(k, a) && TableOk(k.tree, b)
    ensures At(Record(k, b, a).stats, p)
         == if a.Wait? && a.w == p then At(b.stats, p).Plus(At(b.stats, a.c).Plus(At(b.clock, a.c)))
            else At(b.stats, p)
  {
    if a.LinkChild? {
      assert CloneOk(k.tree, k.nextPid, a.child, k.clones[a.child]);
    } else if a.Wait? {
      assert IsChild(k.tree, a.w, a.c);
    }
  }

  /** The clock of `p` after the first `i` actions. */
  ghost function ClockAt(trace: seq<Kernel>, actions: seq<Action>, i: nat, p: Pid): Cpu
    requires i <= |actions| && |trace| == |actions| + 1
  {
    At(BooksAt(trace, actions, i).clock, p)
  }

  /** The time of its reaped children. */
  ghost function StatsAt(trace: seq<Kernel>, actions: seq<Action>, i: nat, p: Pid): Cpu
    requires i <= |actions| && |trace| == |actions| + 1
  {
    At(BooksAt(trace, actions, i).stats, p)
  }

  lemma BooksStep(trace: seq<Kernel>, actions: seq<Action>, i: nat, p: Pid)
    requires IsRun(trace, actions) && i < |actions|
    ensures var a, clock := actions[i], ClockAt(trace, actions, i, p);
            ClockAt(trace, actions, i + 1, p) == if a.Tick? && a.p == p then clock.Plus(a.time) else clock
    ensures var a, stats := actions[i], StatsAt(trace, actions, i, p);
            StatsAt(trace, actions, i + 1, p)
            == if a.Wait? && a.w == p then
                 stats.Plus(StatsAt(trace, actions, i, a.c).Plus(ClockAt(trace, actions, i, a.c)))
               else stats
  {
    BooksBalance(trace, actions, i);
    RunInv(trace, actions, i);
    RecordClock(trace[i], BooksAt(trace, actions, i), actions[i], p);
    RecordStats(trace[i], BooksAt(trace, actions, i), actions[i], p);
  }

  lemma FirstTimes(trace: seq<Kernel>, actions: seq<Action>, p: Pid)
    requires |trace| == |actions| + 1
    ensures ClockAt(trace, actions, 0, p) == Zero() && StatsAt(trace, actions, 0, p) == Zero()
  {
  }

  lemma {:induction false} ClockExact(trace: seq<Kernel>, actions: seq<Action>, i: nat, p: Pid)
    requires IsRun(trace, actions) && i <= |actions|
    ensures ClockAt(trace, actions, i, p) == TickedBy(actions, i, p)
    decreases i
  {
    if i > 0 {
      ClockExact(trace, actions, i - 1, p);
      BooksStep(trace, actions, i - 1, p);
    } else {
      FirstTimes(trace, actions, p);
    }
  }

  lemma {:induction false} StatsExact(trace: seq<Kernel>, actions: seq<Action>, i: nat, p: Pid)
    requires IsRun(trace, actions) && i <= |actions|
    ensures StatsAt(trace, actions, i, p) == CreditedTo(actions, i, p)
    decreases i
  {
    if i > 0 {
      StatsExact(trace, actions, i - 1, p);
      BooksStep(trace, actions, i - 1, p);
      if actions[i - 1].Wait? {
        StatsExact(trace, actions, i - 1, actions[i - 1].c);
        ClockExact(trace, actions, i - 1, actions[i - 1].c);
      }
    } else {
      FirstTimes(trace, actions, p);
    }
  }

  /** In every run each clock is the time its process has used, and each statistic goes to the one who waited. */
  lemma BooksExact(trace: seq<Kernel>, actions: seq<Action>, i: nat, p: Pid)
    requires IsRun(trace, actions) && i < |trace| && p in trace[i].tree.parent
    ensures var b := BooksAt(trace, actions, i);
            && p in b.clock && b.clock[p] == TickedBy(actions, i, p)
            && p in b.stats && b.stats[p] == CreditedTo(actions, i, p)
  {
    BooksBalance(trace, actions, i);
    ClockExact(trace, actions, i, p);
    StatsExact(trace, actions, i, p);
  }

  /** A wait that reaps `c` takes it, and nothing else, out of the children of the waiter. */
  lemma WaitReaps(trace: seq<Kernel>, actions: seq<Action>, i: nat, w: Pid, c: Pid)
    requires IsRun(trace, actions) && i < |actions| && actions[i] == Wait(w, c)
    ensures var t, u := trace[i].tree, trace[i + 1].tree;
            && IsChild(t, w, c) && c in t.zombies && c !in t.reaped
            && u.reaped == t.reaped + {c} && u.parent == t.parent && u.zombies == t.zombies
            && (forall x, d :: IsChild(u, x, d) <==> IsChild(t, x, d) && d != c)
  {
    RunInv(trace, actions, i);
    var t := trace[i].tree;
    assert IsChild(t, w, c);
    forall x, d ensures IsChild(trace[i + 1].tree, x, d) <==> IsChild(t, x, d) && d != c {
      if IsChild(t, x, c) { assert t.parent[c] == x; }
    }
  }

  /** Every zombie child of a live process can be reaped by it. */
  lemma ZombieIsReapable(trace: seq<Kernel>, actions: seq<Action>, i: nat, c: Pid)
    requires IsRun(trace, actions) && i < |trace| && c in trace[i].tree.zombies && c !in trace[i].tree.reaped
    requires c != INIT_PID && c in trace[i].tree.parent && trace[i].tree.parent[c] !in trace[i].tree.zombies
    ensures Enabled(trace[i], Wait(trace[i].tree.parent[c], c))
  {
    RunInv(trace, actions, i);
    assert IsChild(trace[i].tree, trace[i].tree.parent[c], c);
  }
}
