/**
  Processes, their parent links and their `children` maps: the data the exit, clone and
  wait paths share, and one function per critical section taken under a `children` lock.

  PIDs come from a counter that only grows and are never recycled, so a PID is also the
  creation rank of its process.  A process is kept after it was reaped, because its own exit
  may still be running.
 */
module Processes {

  type Pid = nat

  /** The cached parent PID of a process without a parent (only the init process). */
  const NO_PID: Pid := 0
  const INIT_PID: Pid := 1

  /** One map or set per field of the processes; the keys of `parent` are the processes. */
  datatype Tree = Tree(
    parent: map<Pid, Pid>,
    children: map<Pid, set<Pid>>,   // no entry once the children were handed to a reaper
    zombies: set<Pid>,
    reaped: set<Pid>,
    isSubreaper: set<Pid>,
    hasSubreaper: set<Pid>)

  // ----- Shape of the tree -----

  /** Every process but init has an earlier-created parent. */
  ghost predicate Ranked(t: Tree) {
    && INIT_PID in t.parent
    && t.parent[INIT_PID] == NO_PID
    && (forall p :: p in t.parent ==> p >= INIT_PID)
    && (forall p {:trigger t.parent[p]} :: p in t.parent && p != INIT_PID ==>
          t.parent[p] in t.parent && t.parent[p] < p)
  }

  ghost predicate IsChild(t: Tree, p: Pid, c: Pid) {
    p in t.children && c in t.children[p]
  }

  /** The children maps and the parent links of unreaped processes are inverse to each other. */
  ghost predicate Linked(t: Tree) {
    && t.children.Keys <= t.parent.Keys
    && (forall p, c :: IsChild(t, p, c) ==>
          c in t.parent && t.parent[c] == p && c !in t.reaped && c != INIT_PID)
    && (forall c {:trigger t.parent[c]} :: c in t.parent && c != INIT_PID && c !in t.reaped ==>
          IsChild(t, t.parent[c], c))
  }

  /** Only a zombie other than init may have lost its children map, and only such a one is reaped. */
  ghost predicate Cleared(t: Tree) {
    && (forall p :: p in t.parent && p !in t.children ==> p != INIT_PID && p in t.zombies)
    && t.zombies <= t.parent.Keys
    && t.reaped <= t.zombies
    && INIT_PID !in t.reaped
  }

  ghost predicate WellFormed(t: Tree) {
    Ranked(t) && Linked(t) && Cleared(t)
  }

  /** An unreaped process lies in exactly one children map: the one of the process its parent link names. */
  lemma ExactlyOneParent(t: Tree, c: Pid)
    requires WellFormed(t)
    requires c in t.parent && c != INIT_PID && c !in t.reaped
    ensures forall p :: IsChild(t, p, c) <==> p == t.parent[c]
  {
  }

  /** The chain of ancestors of `p`, nearest first. */
  function Ancestors(t: Tree, p: Pid): (chain: seq<Pid>)
    requires Ranked(t) && p in t.parent
    decreases p
  {
    if p == INIT_PID then [] else [t.parent[p]] + Ancestors(t, t.parent[p])
  }

  /** Parent chains are acyclic and end at init: each step goes to an earlier-created process. */
  lemma {:induction false} ChainEndsAtInit(t: Tree, p: Pid)
    requires Ranked(t) && p in t.parent && p != INIT_PID
    ensures var chain := Ancestors(t, p);
            && chain != [] && chain[|chain| - 1] == INIT_PID
            && (forall i :: 0 <= i < |chain| ==> chain[i] in t.parent && chain[i] < p)
            && (forall i, j :: 0 <= i < j < |chain| ==> chain[j] < chain[i])
    decreases p
  {
    var q := t.parent[p];
    if q != INIT_PID {
      ChainEndsAtInit(t, q);
      var rest := Ancestors(t, q);
      assert Ancestors(t, p) == [q] + rest;
    } else {
      assert Ancestors(t, q) == [];
      assert Ancestors(t, p) == [q];
    }
  }

  // ----- Critical sections -----

  /** Inserts the new process `child` below `p`; the child inherits `has_child_subreaper`. */
  function Attach(t: Tree, p: Pid, child: Pid): Tree
    requires p in t.children
  {
    t.(parent := t.parent[child := p],
       children := t.children[p := t.children[p] + {child}][child := {}],
       hasSubreaper := if p in t.hasSubreaper then t.hasSubreaper + {child} else t.hasSubreaper)
  }

  /** Hands all children of `p` to `q` and clears the children map of `p`. */
  function Reparent(t: Tree, p: Pid, q: Pid): Tree
    requires p in t.children && q in t.children
  {
    var moved := t.children[p];
    t.(parent := map x | x in t.parent :: if x in moved then q else t.parent[x],
       children := t.children[q := t.children[q] + moved] - {p})
  }

  /** Removes the zombie `c` from the children of `w`. */
  function Reap(t: Tree, w: Pid, c: Pid): Tree
    requires w in t.children
  {
    t.(children := t.children[w := t.children[w] - {c}], reaped := t.reaped + {c})
  }

  lemma AttachWellFormed(t: Tree, p: Pid, child: Pid)
    requires WellFormed(t)
    requires p in t.children && child !in t.parent && p < child
    ensures WellFormed(Attach(t, p, child))
  {
    var u := Attach(t, p, child);
    forall x, c | IsChild(u, x, c)
      ensures c in u.parent && u.parent[c] == x && c !in u.reaped && c != INIT_PID
    {
      assert (c == child && x == p) || IsChild(t, x, c);
    }
    forall c | c in u.parent && c != INIT_PID && c !in u.reaped
      ensures IsChild(u, u.parent[c], c)
    {
      assert c != child ==> IsChild(t, t.parent[c], c);
    }
  }

  lemma ReparentWellFormed(t: Tree, p: Pid, q: Pid)
    requires WellFormed(t)
    requires p in t.children && p in t.zombies && q in t.children && q < p
    ensures WellFormed(Reparent(t, p, q))
  {
    var u := Reparent(t, p, q);
    var moved := t.children[p];
    forall c ensures c in moved <==> IsChild(t, p, c) {}
    forall x, c | IsChild(u, x, c)
      ensures c in u.parent && u.parent[c] == x && c !in u.reaped && c != INIT_PID
    {
      assert IsChild(t, x, c) || (x == q && c in moved);
    }
    forall c | c in u.parent && c != INIT_PID && c !in u.reaped
      ensures IsChild(u, u.parent[c], c)
    {
      assert IsChild(t, t.parent[c], c);
    }
  }

  lemma ReapWellFormed(t: Tree, w: Pid, c: Pid)
    requires WellFormed(t) && IsChild(t, w, c) && c in t.zombies
    ensures WellFormed(Reap(t, w, c))
  {
    var u := Reap(t, w, c);
    forall x, d | IsChild(u, x, d)
      ensures d in u.parent && u.parent[d] == x && d !in u.reaped && d != INIT_PID
    {
      assert IsChild(t, x, d);
    }
    forall d | d in u.parent && d != INIT_PID && d !in u.reaped
      ensures IsChild(u, u.parent[d], d)
    {
      assert IsChild(t, t.parent[d], d);
    }
  }
}
