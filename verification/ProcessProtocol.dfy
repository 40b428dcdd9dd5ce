/**
  The concurrent protocol of clone, exit and wait over the process tree.

  A state holds the tree, the process table, the CPU clocks, and the program counter of every
  clone and exit in flight.  An action is one critical section under a `children` lock, or one
  atomic load.  A run is any sequence of enabled actions, so it covers every interleaving.
 */
module ProcessProtocol {
  import opened Processes
  import opened CpuTime
  import opened Wrappers

  /** `set_parent_and_group` for one new child: `target` is the real parent it last read. */
  datatype Clone = Clone(cloner: Pid, cloneParent: bool, target: Option<Pid>, retries: nat)

  /** Where `move_children_to_reaper_process` stands. */
  datatype ExitPc =
    | ReadParent                          // about to read the exiting process's parent link
    | AtAncestor(q: Pid)                  // about to test init and `has_child_subreaper` of `q`
    | LoadSubreaper(q: Pid)               // about to load `is_child_subreaper` of `q`
    | LoadZombie(q: Pid, isReaper: bool)  // about to load the zombie flag of `q`
    | GoUp(q: Pid)                        // about to read the parent link of `q`
    | Move(q: Pid)                        // about to lock the children of the reaper `q`
    | Finished

  /** `failed` are the reapers whose children turned out to be cleared. */
  datatype Exit = Exit(pc: ExitPc, failed: set<Pid>, retries: nat)

  /** The tree with the clones and exits in flight. */
  datatype Kernel = Kernel(
    tree: Tree,
    nextPid: Pid,
    clones: map<Pid, Clone>,  // by the PID of the child
    exits: map<Pid, Exit>)

  datatype Action =
    | StartClone(cloner: Pid, cloneParent: bool, child: Pid)
    | ReadRealParent(child: Pid)
    | LinkChild(child: Pid)
    | SetZombie(p: Pid)
    | StepExit(p: Pid)
    | RestartWalk(p: Pid)
    | Wait(w: Pid, c: Pid)
    | Tick(p: Pid, time: Cpu)
    | SetSubreaper(p: Pid, isSubreaper: bool, hasSubreaper: bool)

  // ----- Transitions -----

  ghost predicate Init(k: Kernel) {
    k == Kernel(Tree(map[INIT_PID := NO_PID], map[INIT_PID := {}], {}, {}, {}, {}), INIT_PID + 1, map[], map[])
  }

  /** Some thread of `p` may still run: it is no zombie, or its exit has not ended. */
  predicate Running(k: Kernel, p: Pid) {
    p in k.tree.parent && (p !in k.exits || !k.exits[p].pc.Finished?)
  }

  /** The last handle to `p` may be gone: its exit has ended and its parent has reaped it. */
  predicate Droppable(k: Kernel, p: Pid) {
    p in k.tree.reaped && !Running(k, p)
  }

  predicate Enabled(k: Kernel, a: Action) {
    var t := k.tree;
    match a
    case StartClone(cloner, cloneParent, child) =>
      // The calling thread keeps the cloner from being a zombie; CLONE_PARENT is refused for init.
      && cloner in t.parent && cloner !in t.zombies
      && (cloneParent ==> t.parent[cloner] != NO_PID)
      && child >= k.nextPid
    case ReadRealParent(child) => child in k.clones && k.clones[child].target.None?
    case LinkChild(child) => child in k.clones && k.clones[child].target.Some?
    case SetZombie(p) =>
      // The last thread of `p` is exiting, so none of its threads is inside clone.
      && p in t.parent && p !in t.zombies
      && (forall c :: c in k.clones ==> k.clones[c].cloner != p)
    case StepExit(p) => p in k.exits && !k.exits[p].pc.Finished?
    case RestartWalk(p) =>
      && p in k.exits && k.exits[p].pc.GoUp?
      && k.exits[p].pc.q in t.parent && Droppable(k, t.parent[k.exits[p].pc.q])
    case Wait(w, c) =>
      // A thread of `w` holds the lock on its children and finds the zombie `c` among them.
      w in t.parent && w !in t.zombies && c in t.zombies && (w in t.children ==> c in t.children[w])
    case Tick(p, _) => Running(k, p)
    case SetSubreaper(p, _, _) => p in t.parent
  }

  /** `clone_parent`: the cloner itself, or its parent under CLONE_PARENT. */
  function RealParent(t: Tree, cl: Clone): Pid
    requires cl.cloner in t.parent
  {
    if cl.cloneParent then t.parent[cl.cloner] else cl.cloner
  }

  /** No `unwrap` or assertion of the source fails in action `a`. */
  predicate NoPanic(k: Kernel, a: Action)
    requires Enabled(k, a)
  {
    var t := k.tree;
    match a
    case ReadRealParent(child) =>
      && k.clones[child].cloner in t.parent && RealParent(t, k.clones[child]) in t.parent
      && !Droppable(k, RealParent(t, k.clones[child]))
    case SetZombie(p) => p in t.children
    case Wait(w, _) => w in t.children
    case StepExit(p) =>
      && p in t.parent
      && (match k.exits[p].pc
          case ReadParent => t.parent[p] in t.parent && !Droppable(k, t.parent[p])
          case AtAncestor(q) => q in t.parent
          case LoadSubreaper(q) => q in t.parent
          case LoadZombie(q, _) => q in t.parent
          case GoUp(q) => q in t.parent && t.parent[q] in t.parent
          // the own children are there, and init never loses its children
          case Move(q) => p in t.children && (q == INIT_PID ==> q in t.children)
          case Finished => true)
    case _ => true
  }

  /** The action reads the parent link of a process that is reaped already, and its parent is gone. */
  predicate LosesParent(k: Kernel, a: Action)
    requires Enabled(k, a)
  {
    && a.StepExit? && k.exits[a.p].pc.ReadParent?
    && a.p in k.tree.reaped && a.p in k.tree.parent && Droppable(k, k.tree.parent[a.p])
  }

  /** The next program counter of `move_children_to_reaper_process` and its tree. */
  function NextExit(t: Tree, p: Pid, e: Exit): (Tree, Exit) {
    match e.pc
    case ReadParent => (t, if p in t.parent then e.(pc := AtAncestor(t.parent[p])) else e)
    case AtAncestor(q) =>
      (t, e.(pc := if q in t.parent && t.parent[q] == NO_PID then Move(q)
                   else if q !in t.hasSubreaper then Move(INIT_PID)
                   else LoadSubreaper(q)))
    case LoadSubreaper(q) => (t, e.(pc := LoadZombie(q, q in t.isSubreaper)))
    case LoadZombie(q, isReaper) => (t, e.(pc := if isReaper && q !in t.zombies then Move(q) else GoUp(q)))
    case GoUp(q) => (t, if q in t.parent then e.(pc := AtAncestor(t.parent[q])) else e)
    case Move(q) =>
      if q !in t.children then (t, Exit(ReadParent, e.failed + {q}, e.retries + 1))
      else if p in t.children then (Reparent(t, p, q), e.(pc := Finished))
      else (t, e)
    case Finished => (t, e)
  }

  /**
    The state after an action.  `Droppable` says that a handle may be gone; a run goes on as if
    another handle had kept the process, so what holds over runs also holds up to a panic.
   */
  function Do(k: Kernel, a: Action): Kernel
    requires Enabled(k, a)
  {
    var t := k.tree;
    match a
    case StartClone(cloner, cloneParent, child) =>
      k.(nextPid := child + 1, clones := k.clones[child := Clone(cloner, cloneParent, None, 0)])
    case ReadRealParent(child) =>
      var cl := k.clones[child];
      if cl.cloner in t.parent then
        k.(clones := k.clones[child := cl.(target := Some(RealParent(t, cl)))])
      else k
    case LinkChild(child) =>
      var cl := k.clones[child];
      if cl.target.value !in t.children then
        k.(clones := k.clones[child := cl.(target := None, retries := cl.retries + 1)])
      else
        k.(tree := Attach(t, cl.target.value, child), clones := k.clones - {child})
    case SetZombie(p) =>
      // `move_children_to_reaper_process` returns at once for init.
      k.(tree := t.(zombies := t.zombies + {p}),
         exits := k.exits[p := Exit(if t.parent[p] == NO_PID then Finished else ReadParent, {}, 0)])
    case StepExit(p) =>
      var (tree, exit) := NextExit(t, p, k.exits[p]);
      k.(tree := tree, exits := k.exits[p := exit])
    case RestartWalk(p) => k.(exits := k.exits[p := k.exits[p].(pc := ReadParent)])
    case Wait(w, c) => if w in t.children then k.(tree := Reap(t, w, c)) else k
    case Tick(_, _) => k
    case SetSubreaper(p, isSubreaper, hasSubreaper) =>
      k.(tree := t.(isSubreaper := if isSubreaper then t.isSubreaper + {p} else t.isSubreaper - {p},
                    hasSubreaper := if hasSubreaper then t.hasSubreaper + {p} else t.hasSubreaper - {p}))
  }

  /** A run: a trace of states, each obtained from the one before by an enabled action. */
  ghost predicate IsRun(trace: seq<Kernel>, actions: seq<Action>) {
    && |trace| == |actions| + 1
    && Init(trace[0])
    && (forall i :: 0 <= i < |actions| ==>
          Enabled(trace[i], actions[i]) && trace[i + 1] == Do(trace[i], actions[i]))
  }

  // ----- The invariant -----

  ghost predicate PidsBelow(t: Tree, nextPid: Pid) {
    forall p :: p in t.parent ==> p < nextPid
  }

  /**
    A clone in flight: the cloner is alive, and under CLONE_PARENT the ranks of the real parents
    tried so far leave room for fewer than `cloner` retries.
   */
  ghost predicate CloneOk(t: Tree, nextPid: Pid, child: Pid, cl: Clone) {
    && child !in t.parent && child < nextPid
    && cl.cloner in t.parent && cl.cloner !in t.zombies && cl.cloner < child
    && (!cl.cloneParent ==> cl.retries == 0 && (cl.target.Some? ==> cl.target.value == cl.cloner))
    && (cl.cloneParent ==> cl.cloner != INIT_PID)
    && (cl.cloneParent && cl.target.None? ==> cl.retries + t.parent[cl.cloner] < cl.cloner)
    && (cl.cloneParent && cl.target.Some? ==>
          && cl.target.value in t.parent
          && t.parent[cl.cloner] <= cl.target.value
          && cl.retries + cl.target.value < cl.cloner)
  }

  ghost predicate ClonesOk(t: Tree, nextPid: Pid, clones: map<Pid, Clone>) {
    forall c :: c in clones ==> CloneOk(t, nextPid, c, clones[c])
  }

  /**
    An exit in flight: it only looks at earlier processes, its own children map is there until it
    has moved them, and a reaper that failed once is never chosen again.
   */
  ghost predicate ExitOk(t: Tree, p: Pid, e: Exit) {
    && p in t.zombies
    && (if p == INIT_PID then e.pc.Finished? else (e.pc.Finished? <==> p !in t.children))
    && (!e.pc.ReadParent? && !e.pc.Finished? ==> e.pc.q in t.parent && e.pc.q < p)
    && (e.pc.LoadSubreaper? || e.pc.LoadZombie? || e.pc.GoUp? ==> e.pc.q != INIT_PID)
    && (forall f :: f in e.failed ==> f in t.parent && f < p && f !in t.children)
    && (e.pc.Move? ==> e.pc.q !in e.failed)
    && e.retries == |e.failed|
  }

  ghost predicate ExitsOk(t: Tree, exits: map<Pid, Exit>) {
    && (forall p :: p in t.zombies ==> p in exits)
    && (forall p :: p in exits ==> ExitOk(t, p, exits[p]))
  }

  ghost predicate Inv(k: Kernel) {
    && WellFormed(k.tree)
    && PidsBelow(k.tree, k.nextPid)
    && ClonesOk(k.tree, k.nextPid, k.clones)
    && ExitsOk(k.tree, k.exits)
  }

  // ----- What a change of the tree keeps of the clones and exits in flight -----

  /** No clone in flight loses its cloner, and parent links only move to earlier processes. */
  ghost predicate KeepsClones(t: Tree, u: Tree, clones: map<Pid, Clone>) {
    && (forall p :: p in t.parent ==> p in u.parent && u.parent[p] <= t.parent[p])
    && (forall c :: c in clones ==> c !in u.parent && clones[c].cloner !in u.zombies)
  }

  lemma ClonesKept(t: Tree, u: Tree, n: Pid, m: Pid, clones: map<Pid, Clone>)
    requires KeepsClones(t, u, clones) && n <= m && ClonesOk(t, n, clones)
    ensures ClonesOk(u, m, clones)
  {
    forall c | c in clones ensures CloneOk(u, m, c, clones[c]) {
      assert CloneOk(t, n, c, clones[c]);
    }
  }

  /** Children maps neither come back nor disappear behind an exit's back. */
  ghost predicate KeepsExit(t: Tree, u: Tree, p: Pid) {
    && t.parent.Keys <= u.parent.Keys
    && t.zombies <= u.zombies
    && (p in t.children <==> p in u.children)
    && (forall f :: f in t.parent && f !in t.children ==> f !in u.children)
  }

  lemma ExitKept(t: Tree, u: Tree, p: Pid, e: Exit)
    requires KeepsExit(t, u, p) && ExitOk(t, p, e)
    ensures ExitOk(u, p, e)
  {
  }

  // ----- Each action preserves the invariant -----

  lemma InitInv(k: Kernel)
    requires Init(k)
    ensures Inv(k)
  {
    assert forall p, c :: !IsChild(k.tree, p, c);
  }

  lemma StartCloneInv(k: Kernel, cloner: Pid, cloneParent: bool, child: Pid)
    requires Inv(k) && Enabled(k, StartClone(cloner, cloneParent, child))
    ensures Inv(Do(k, StartClone(cloner, cloneParent, child)))
  {
    var k' := Do(k, StartClone(cloner, cloneParent, child));
    assert cloner != INIT_PID ==> k.tree.parent[cloner] < cloner;
    forall c | c in k'.clones ensures CloneOk(k'.tree, k'.nextPid, c, k'.clones[c]) {
      assert c != child ==> CloneOk(k.tree, k.nextPid, c, k.clones[c]);
    }
  }

  lemma ReadRealParentOk(t: Tree, nextPid: Pid, child: Pid, cl: Clone)
    requires Ranked(t) && CloneOk(t, nextPid, child, cl) && cl.target.None?
    ensures RealParent(t, cl) in t.parent
    ensures CloneOk(t, nextPid, child, cl.(target := Some(RealParent(t, cl))))
  {
    assert cl.cloner != INIT_PID ==> t.parent[cl.cloner] in t.parent;
  }

  /**
    The parent of an unreaped process still holds it in its children map, so it is unreaped or its
    own exit has not ended.
   */
  lemma ParentHeld(k: Kernel, c: Pid)
    requires Inv(k) && c in k.tree.parent && c != INIT_PID && c !in k.tree.reaped
    ensures !Droppable(k, k.tree.parent[c])
  {
    var q := k.tree.parent[c];
    assert IsChild(k.tree, q, c);
    if q in k.exits { assert ExitOk(k.tree, q, k.exits[q]); }
  }

  lemma ReadRealParentInv(k: Kernel, child: Pid)
    requires Inv(k) && Enabled(k, ReadRealParent(child))
    ensures NoPanic(k, ReadRealParent(child)) && Inv(Do(k, ReadRealParent(child)))
  {
    var cl := k.clones[child];
    assert CloneOk(k.tree, k.nextPid, child, cl);
    ReadRealParentOk(k.tree, k.nextPid, child, cl);
    if cl.cloneParent { ParentHeld(k, cl.cloner); }
  }

  /** When the children of the real parent are cleared, the cloner already has an earlier-created parent. */
  lemma RetryMeansEarlierParent(t: Tree, nextPid: Pid, child: Pid, cl: Clone)
    requires WellFormed(t) && CloneOk(t, nextPid, child, cl)
    requires cl.target.Some? && cl.target.value !in t.children
    ensures cl.cloneParent && t.parent[cl.cloner] < cl.target.value
  {
    assert cl.cloner in t.children;
    assert IsChild(t, t.parent[cl.cloner], cl.cloner);
  }

  lemma AttachKeeps(t: Tree, n: Pid, q: Pid, child: Pid, clones: map<Pid, Clone>, exits: map<Pid, Exit>)
    requires q in t.children && child !in t.parent && child !in clones
    requires ClonesOk(t, n, clones) && ExitsOk(t, exits) && t.zombies <= t.parent.Keys
    ensures ClonesOk(Attach(t, q, child), n, clones)
    ensures ExitsOk(Attach(t, q, child), exits)
  {
    var u := Attach(t, q, child);
    forall c | c in clones ensures c !in u.parent && clones[c].cloner !in u.zombies {
      assert CloneOk(t, n, c, clones[c]);
    }
    ClonesKept(t, u, n, n, clones);
    forall p | p in exits ensures ExitOk(u, p, exits[p]) {
      assert ExitOk(t, p, exits[p]);
      ExitKept(t, u, p, exits[p]);
    }
  }

  lemma LinkChildInv(k: Kernel, child: Pid)
    requires Inv(k) && Enabled(k, LinkChild(child))
    ensures Inv(Do(k, LinkChild(child)))
  {
    var cl := k.clones[child];
    assert CloneOk(k.tree, k.nextPid, child, cl);
    if cl.target.value !in k.tree.children {
      RetryMeansEarlierParent(k.tree, k.nextPid, child, cl);
      assert CloneOk(k.tree, k.nextPid, child, cl.(target := None, retries := cl.retries + 1));
    } else {
      AttachWellFormed(k.tree, cl.target.value, child);
      AttachKeeps(k.tree, k.nextPid, cl.target.value, child, k.clones - {child}, k.exits);
    }
  }

  lemma LinkedUnchanged(t: Tree, u: Tree)
    requires Linked(t)
    requires u.parent == t.parent && u.children == t.children && u.reaped == t.reaped
    ensures Linked(u)
  {
    forall p, c | IsChild(u, p, c) ensures IsChild(t, p, c) {}
    forall c | c in u.parent && c != INIT_PID && c !in u.reaped ensures IsChild(u, u.parent[c], c) {
      assert IsChild(t, t.parent[c], c);
    }
  }

  lemma ZombieExits(t: Tree, p: Pid, exits: map<Pid, Exit>, e: Exit)
    requires ExitsOk(t, exits) && p in t.parent && p !in t.zombies && p in t.children
    requires e == Exit(if p == INIT_PID then Finished else ReadParent, {}, 0)
    ensures ExitsOk(t.(zombies := t.zombies + {p}), exits[p := e])
  {
    var u := t.(zombies := t.zombies + {p});
    forall x | x in exits ensures ExitOk(u, x, exits[x]) {
      ExitKept(t, u, x, exits[x]);
    }
  }

  lemma ZombieClones(t: Tree, n: Pid, clones: map<Pid, Clone>, p: Pid)
    requires ClonesOk(t, n, clones) && forall c :: c in clones ==> clones[c].cloner != p
    ensures ClonesOk(t.(zombies := t.zombies + {p}), n, clones)
  {
    var u := t.(zombies := t.zombies + {p});
    forall c | c in clones ensures c !in u.parent && clones[c].cloner !in u.zombies {
      assert CloneOk(t, n, c, clones[c]);
    }
    ClonesKept(t, u, n, n, clones);
  }

  lemma SetZombieInv(k: Kernel, p: Pid)
    requires Inv(k) && Enabled(k, SetZombie(p))
    ensures NoPanic(k, SetZombie(p)) && Inv(Do(k, SetZombie(p)))
  {
    var k' := Do(k, SetZombie(p));
    assert p in k.tree.children;
    LinkedUnchanged(k.tree, k'.tree);
    assert p != INIT_PID ==> k.tree.parent[p] >= INIT_PID;
    ZombieExits(k.tree, p, k.exits, k'.exits[p]);
    ZombieClones(k.tree, k.nextPid, k.clones, p);
  }

  /** Any step of an exit that does not move children leaves a fitting program counter. */
  lemma WalkExitOk(t: Tree, p: Pid, e: Exit)
    requires WellFormed(t) && ExitOk(t, p, e) && !e.pc.Finished?
    requires e.pc.Move? ==> e.pc.q !in t.children
    ensures NextExit(t, p, e).0 == t && ExitOk(t, p, NextExit(t, p, e).1)
    ensures p in t.parent && t.parent[p] in t.parent
    ensures e.pc.GoUp? ==> t.parent[e.pc.q] in t.parent
    ensures e.pc.Move? ==> e.pc.q != INIT_PID && p in t.children
  {
    assert t.parent[p] in t.parent && t.parent[p] < p;
    match e.pc
    case AtAncestor(q) => assert q != INIT_PID ==> t.parent[q] >= INIT_PID;
    case GoUp(q) => assert t.parent[q] in t.parent && t.parent[q] < q;
    case LoadZombie(q, _) => assert q in e.failed ==> q in t.zombies;
    case _ =>
  }

  lemma WalkInv(k: Kernel, p: Pid)
    requires Inv(k) && Enabled(k, StepExit(p))
    requires k.exits[p].pc.Move? ==> k.exits[p].pc.q !in k.tree.children
    ensures NoPanic(k, StepExit(p)) <==> !LosesParent(k, StepExit(p))
    ensures Inv(Do(k, StepExit(p)))
  {
    assert ExitOk(k.tree, p, k.exits[p]);
    WalkExitOk(k.tree, p, k.exits[p]);
    if p !in k.tree.reaped { ParentHeld(k, p); }
  }

  /** Reparenting only ever moves a process below an earlier-created parent. */
  lemma ReparentLowers(t: Tree, p: Pid, q: Pid)
    requires Linked(t) && p in t.children && q in t.children && q < p
    ensures Reparent(t, p, q).parent.Keys == t.parent.Keys
    ensures forall c :: c in t.parent ==> Reparent(t, p, q).parent[c] <= t.parent[c]
  {
    forall c | c in t.children[p] ensures c in t.parent && t.parent[c] == p {
      assert IsChild(t, p, c);
    }
  }

  lemma MoveExits(t: Tree, p: Pid, q: Pid, exits: map<Pid, Exit>)
    requires Linked(t) && p in t.children && q in t.children && q < p
    requires ExitsOk(t, exits) && p in exits && p != INIT_PID
    ensures ExitsOk(Reparent(t, p, q), exits[p := exits[p].(pc := Finished)])
  {
    var u := Reparent(t, p, q);
    ReparentLowers(t, p, q);
    forall x | x in exits && x != p ensures ExitOk(u, x, exits[x]) {
      ExitKept(t, u, x, exits[x]);
    }
  }

  lemma MoveInv(k: Kernel, p: Pid)
    requires Inv(k) && Enabled(k, StepExit(p))
    requires k.exits[p].pc.Move? && k.exits[p].pc.q in k.tree.children
    ensures NoPanic(k, StepExit(p)) && Inv(Do(k, StepExit(p)))
  {
    var q := k.exits[p].pc.q;
    assert ExitOk(k.tree, p, k.exits[p]);
    ReparentWellFormed(k.tree, p, q);
    ReparentLowers(k.tree, p, q);
    MoveExits(k.tree, p, q, k.exits);
    forall c | c in k.clones ensures c !in k.tree.parent && k.clones[c].cloner !in k.tree.zombies {
      assert CloneOk(k.tree, k.nextPid, c, k.clones[c]);
    }
    ClonesKept(k.tree, Reparent(k.tree, p, q), k.nextPid, k.nextPid, k.clones);
  }

  lemma WaitInv(k: Kernel, w: Pid, c: Pid)
    requires Inv(k) && Enabled(k, Wait(w, c))
    ensures NoPanic(k, Wait(w, c)) && Inv(Do(k, Wait(w, c)))
  {
    assert IsChild(k.tree, w, c);
    ReapWellFormed(k.tree, w, c);
    var u := Reap(k.tree, w, c);
    forall x | x in k.exits ensures ExitOk(u, x, k.exits[x]) {
      ExitKept(k.tree, u, x, k.exits[x]);
    }
    forall x | x in k.clones ensures x !in u.parent && k.clones[x].cloner !in u.zombies {
      assert CloneOk(k.tree, k.nextPid, x, k.clones[x]);
    }
    ClonesKept(k.tree, u, k.nextPid, k.nextPid, k.clones);
  }

  lemma SetSubreaperInv(k: Kernel, p: Pid, isSubreaper: bool, hasSubreaper: bool)
    requires Inv(k) && Enabled(k, SetSubreaper(p, isSubreaper, hasSubreaper))
    ensures Inv(Do(k, SetSubreaper(p, isSubreaper, hasSubreaper)))
  {
    var u := Do(k, SetSubreaper(p, isSubreaper, hasSubreaper)).tree;
    LinkedUnchanged(k.tree, u);
    forall x | x in k.exits ensures ExitOk(u, x, k.exits[x]) {
      ExitKept(k.tree, u, x, k.exits[x]);
    }
    forall x | x in k.clones ensures x !in u.parent && k.clones[x].cloner !in u.zombies {
      assert CloneOk(k.tree, k.nextPid, x, k.clones[x]);
    }
    ClonesKept(k.tree, u, k.nextPid, k.nextPid, k.clones);
  }

  /**
    Every action keeps the invariant, and an action panics if and only if it reads the parent link
    of a process that is reaped already and whose parent is gone.
   */
  lemma ActionInv(k: Kernel, a: Action)
    requires Inv(k) && Enabled(k, a)
    ensures NoPanic(k, a) <==> !LosesParent(k, a)
    ensures Inv(Do(k, a))
  {
    match a
    case StartClone(cloner, cloneParent, child) => StartCloneInv(k, cloner, cloneParent, child);
    case ReadRealParent(child) => ReadRealParentInv(k, child);
    case LinkChild(child) => LinkChildInv(k, child);
    case SetZombie(p) => SetZombieInv(k, p);
    case StepExit(p) =>
      if k.exits[p].pc.Move? && k.exits[p].pc.q in k.tree.children {
        MoveInv(k, p);
      } else {
        WalkInv(k, p);
      }
    case RestartWalk(p) =>
      assert ExitOk(k.tree, p, k.exits[p]);
      assert ExitOk(k.tree, p, k.exits[p].(pc := ReadParent));
    case Wait(w, c) => WaitInv(k, w, c);
    case Tick(p, time) =>
    case SetSubreaper(p, isSubreaper, hasSubreaper) => SetSubreaperInv(k, p, isSubreaper, hasSubreaper);
  }

  /** A walk starts over only at an ancestor that is reaped, and whose own parent is gone. */
  lemma RestartMeansReaped(k: Kernel, p: Pid)
    requires Inv(k) && Enabled(k, RestartWalk(p))
    ensures k.exits[p].pc.q in k.tree.reaped && Droppable(k, k.tree.parent[k.exits[p].pc.q])
    ensures p !in k.tree.reaped && k.tree.parent[p] == k.exits[p].pc.q ==> Running(k, k.exits[p].pc.q)
  {
    var q := k.exits[p].pc.q;
    assert ExitOk(k.tree, p, k.exits[p]);
    if q !in k.tree.reaped { ParentHeld(k, q); }
    if p !in k.tree.reaped && k.tree.parent[p] == q { ParentHeld(k, p); }
  }

  /** Every state of every run satisfies the invariant. */
  lemma {:induction false} RunInv(trace: seq<Kernel>, actions: seq<Action>, i: nat)
    requires IsRun(trace, actions) && i < |trace|
    ensures Inv(trace[i])
    decreases i
  {
    if i == 0 {
      InitInv(trace[0]);
    } else {
      RunInv(trace, actions, i - 1);
      ActionInv(trace[i - 1], actions[i - 1]);
    }
  }
}
