/**
  Handing the children of an exiting process to a reaper, as the exit path runs it on a tree
  that nobody else changes meanwhile.
 */
module ExitPath {
  import opened Processes
  import opened ProcessProtocol
  import opened ProcessRuns
  import opened Wrappers

  /** A process that may adopt orphans: init, or a subreaper that has not exited. */
  predicate Eligible(t: Tree, q: Pid) {
    q == INIT_PID || (q in t.isSubreaper && q !in t.zombies)
  }

  /** The nearest eligible process at or above `q`. */
  function NearestReaper(t: Tree, q: Pid): Pid
    requires Ranked(t) && q in t.parent
    decreases q
  {
    if Eligible(t, q) then q else NearestReaper(t, t.parent[q])
  }

  /** `r` is the first eligible process on the chain of ancestors of `p`. */
  ghost predicate IsNearestReaper(t: Tree, p: Pid, r: Pid)
    requires Ranked(t) && p in t.parent
  {
    var chain := Ancestors(t, p);
    exists i :: 0 <= i < |chain| && chain[i] == r && Eligible(t, r) && forall j :: 0 <= j < i ==> !Eligible(t, chain[j])
  }

  lemma {:induction false} NearestReaperOnChain(t: Tree, p: Pid)
    requires Ranked(t) && p in t.parent && p != INIT_PID
    ensures IsNearestReaper(t, p, NearestReaper(t, t.parent[p]))
    decreases p
  {
    var q := t.parent[p];
    var chain := Ancestors(t, p);
    assert chain == [q] + Ancestors(t, q);
    if Eligible(t, q) {
      assert chain[0] == q;
    } else {
      NearestReaperOnChain(t, q);
      var rest := Ancestors(t, q);
      var r := NearestReaper(t, q);
      var i :| 0 <= i < |rest| && rest[i] == r && Eligible(t, r) && forall j :: 0 <= j < i ==> !Eligible(t, rest[j]);
      forall j | 0 <= j < i + 1 ensures !Eligible(t, chain[j]) {
        assert j > 0 ==> chain[j] == rest[j - 1];
      }
      assert chain[i + 1] == r;
    }
  }

  /** All processes from `q` up to the nearest reaper, other than init, carry `has_child_subreaper`. */
  predicate Flagged(t: Tree, q: Pid)
    requires Ranked(t) && q in t.parent
    decreases q
  {
    q == INIT_PID || (q in t.hasSubreaper && (Eligible(t, q) || Flagged(t, t.parent[q])))
  }

  /** If every subreaper and all its descendants carry the flag, the walk sees flags up to the nearest reaper. */
  lemma {:induction false} ClosedFlagsReach(t: Tree, q: Pid)
    requires Ranked(t) && FlagClosed(t) && t.isSubreaper <= t.hasSubreaper && q in t.parent
    ensures NearestReaper(t, q) != INIT_PID ==> Flagged(t, q)
    ensures NearestReaper(t, q) in t.hasSubreaper ==> q in t.hasSubreaper
    decreases q
  {
    if !Eligible(t, q) { ClosedFlagsReach(t, t.parent[q]); }
  }

  /** The flag is handed down along the children maps. */
  ghost predicate FlagLinked(t: Tree) {
    forall p, c :: IsChild(t, p, c) && p in t.hasSubreaper ==> c in t.hasSubreaper
  }

  /** No exit is under way: a reaped process has handed over its children. */
  ghost predicate Settled(t: Tree) {
    forall p :: p in t.reaped ==> p !in t.children
  }

  /** The same for the flag handed down along children maps, on a tree on which no exit is under way. */
  lemma {:induction false} LinkedFlagsReach(t: Tree, q: Pid)
    requires WellFormed(t) && Settled(t) && FlagLinked(t) && t.isSubreaper <= t.hasSubreaper
    requires q in t.parent && q !in t.reaped
    ensures NearestReaper(t, q) != INIT_PID ==> Flagged(t, q)
    ensures NearestReaper(t, q) in t.hasSubreaper ==> q in t.hasSubreaper
    decreases q
  {
    if !Eligible(t, q) {
      assert IsChild(t, t.parent[q], q);
      LinkedFlagsReach(t, t.parent[q]);
    }
  }

  /** The reaper the exit path settles on. */
  function PickedReaper(t: Tree, p: Pid): Pid
    requires Ranked(t) && p in t.parent && p != INIT_PID
  {
    if Flagged(t, t.parent[p]) then NearestReaper(t, t.parent[p]) else INIT_PID
  }

  lemma NearestReaperUnique(t: Tree, p: Pid, q: Pid, r: Pid)
    requires Ranked(t) && p in t.parent && IsNearestReaper(t, p, q) && IsNearestReaper(t, p, r)
    ensures q == r
  {
    var chain := Ancestors(t, p);
    var i :| 0 <= i < |chain| && chain[i] == q && Eligible(t, q) && forall j :: 0 <= j < i ==> !Eligible(t, chain[j]);
    var k :| 0 <= k < |chain| && chain[k] == r && Eligible(t, r) && forall j :: 0 <= j < k ==> !Eligible(t, chain[j]);
    assert i == k;
  }

  /**
    The reaper picked is the nearest live subreaper among the ancestors, or else init, if and only
    if no live subreaper is there or the flags reach up to the nearest one.  They do whenever
    every subreaper and all its descendants carry the flag.
   */
  lemma PickedIsNearestIff(t: Tree, p: Pid)
    requires Ranked(t) && p in t.parent && p != INIT_PID
    ensures IsNearestReaper(t, p, PickedReaper(t, p))
            <==> IsNearestReaper(t, p, INIT_PID) || Flagged(t, t.parent[p])
    ensures FlagClosed(t) && t.isSubreaper <= t.hasSubreaper ==> IsNearestReaper(t, p, PickedReaper(t, p))
  {
    NearestReaperOnChain(t, p);
    var nearest := NearestReaper(t, t.parent[p]);
    if IsNearestReaper(t, p, INIT_PID) { NearestReaperUnique(t, p, nearest, INIT_PID); }
    if FlagClosed(t) && t.isSubreaper <= t.hasSubreaper { ClosedFlagsReach(t, t.parent[p]); }
  }

  /**
    Without the flag the nearest subreaper is missed: process 2 has stored `is_child_subreaper` and
    not yet set `has_child_subreaper` when its child 3 exits.
   */
  lemma PickedCanMissSubreaper() returns (k: Kernel)
    ensures Reachable(k) && Ranked(k.tree) && 3 in k.tree.parent
    ensures IsNearestReaper(k.tree, 3, 2) && PickedReaper(k.tree, 3) == INIT_PID
  {
    var k0 := ReachGrandchild();
    k := ReachableStep(k0, SetSubreaper(2, true, false));
    assert k.tree.parent[3] == 2 && Eligible(k.tree, 2);
    NearestReaperOnChain(k.tree, 3);
  }

  /** On a tree kept by `SetChildSubreaper` orphans go to the nearest live subreaper, or else to init. */
  lemma PickedIsNearest(t: Tree, p: Pid)
    requires WellFormed(t) && Settled(t) && FlagLinked(t) && t.isSubreaper <= t.hasSubreaper
    requires p in t.parent && p != INIT_PID && p !in t.reaped
    ensures IsNearestReaper(t, p, PickedReaper(t, p))
  {
    NearestReaperOnChain(t, p);
    assert IsChild(t, t.parent[p], p);
    LinkedFlagsReach(t, t.parent[p]);
  }

  /** A flag anywhere above a process reaches it. */
  lemma {:induction false} FlagsReachDown(t: Tree, p: Pid, a: Pid)
    requires WellFormed(t) && Settled(t) && FlagLinked(t) && p in t.parent && p !in t.reaped
    requires a in Ancestors(t, p) && a in t.hasSubreaper
    ensures p in t.hasSubreaper
    decreases p
  {
    var q := t.parent[p];
    assert IsChild(t, q, p);
    if a != q {
      assert Ancestors(t, p) == [q] + Ancestors(t, q);
      FlagsReachDown(t, q, a);
    }
  }

  lemma PickedIsAncestor(t: Tree, p: Pid)
    requires Ranked(t) && p in t.parent && p != INIT_PID
    ensures PickedReaper(t, p) in Ancestors(t, p)
  {
    NearestReaperOnChain(t, p);
    ChainEndsAtInit(t, p);
  }

  /** Handing children to the picked reaper keeps the flags handed down. */
  lemma ReparentKeepsFlags(t: Tree, p: Pid)
    requires WellFormed(t) && Settled(t) && FlagLinked(t)
    requires p in t.children && p in t.zombies && p != INIT_PID && p !in t.reaped
    requires PickedReaper(t, p) in t.children
    ensures FlagLinked(Reparent(t, p, PickedReaper(t, p)))
  {
    var q := PickedReaper(t, p);
    var u := Reparent(t, p, q);
    PickedIsAncestor(t, p);
    if q in t.hasSubreaper { FlagsReachDown(t, p, q); }
    forall r, c | IsChild(u, r, c) && r in u.hasSubreaper ensures c in u.hasSubreaper {
      assert IsChild(t, r, c) || (r == q && IsChild(t, p, c));
    }
  }

  /** `x` is `p` or a descendant of `p`. */
  ghost predicate Below(t: Tree, p: Pid, x: Pid)
    requires Ranked(t)
  {
    x in t.parent && (x == p || p in Ancestors(t, x))
  }

  lemma BelowChild(t: Tree, p: Pid, q: Pid, c: Pid)
    requires Ranked(t) && Linked(t) && Below(t, p, q) && IsChild(t, q, c)
    ensures Below(t, p, c)
  {
    assert Ancestors(t, c) == [q] + Ancestors(t, q);
  }

  /** While the flag is being handed down: only the processes in the queue may still owe it to their children. */
  ghost predicate HandingDown(t: Tree, p: Pid, before: set<Pid>, has: set<Pid>, queue: seq<Pid>)
    requires Ranked(t)
  {
    && before <= has && p in has
    && (forall q :: q in queue ==> q in has && q in t.parent)
    && (forall q, c :: IsChild(t, q, c) && q in has ==> c in has || q in queue)
    && (forall x :: x in has && x !in before ==> Below(t, p, x))
  }

  /** One process of the queue hands the flag to its children. */
  lemma HandDown(t: Tree, p: Pid, before: set<Pid>, has: set<Pid>, q: Pid, rest: seq<Pid>, added: seq<Pid>)
    requires Ranked(t) && Linked(t) && HandingDown(t, p, before, has, [q] + rest) && q in t.children
    requires forall c :: c in added <==> c in t.children[q] && c !in has
    requires q in before ==> t.children[q] <= before
    ensures HandingDown(t, p, before, has + t.children[q], rest + added)
  {
    var has' := has + t.children[q];
    forall c | c in t.children[q] ensures c in t.parent && (c !in before ==> Below(t, p, c)) {
      assert IsChild(t, q, c);
      if c !in before { BelowChild(t, p, q, c); }
    }
    forall r, c | IsChild(t, r, c) && r in has' ensures c in has' || r in rest + added {
      if r in has && r != q { assert c in has || r in [q] + rest; }
    }
  }

  /** The tree while the children in `done` have been moved to `q`. */
  function Moved(t: Tree, q: Pid, done: set<Pid>): Tree
    requires q in t.children
  {
    t.(parent := map x | x in t.parent :: if x in done then q else t.parent[x],
       children := t.children[q := t.children[q] + done])
  }

  lemma MoveOne(t: Tree, q: Pid, done: set<Pid>, c: Pid)
    requires q in t.children && c in t.parent
    ensures Moved(t, q, {}) == t
    ensures var m := Moved(t, q, done);
            m.(parent := m.parent[c := q], children := m.children[q := m.children[q] + {c}]) == Moved(t, q, done + {c})
  {
    var m := Moved(t, q, done);
    assert Moved(t, q, {}).parent == t.parent;
    assert Moved(t, q, {}).children == t.children by { assert t.children[q] + {} == t.children[q]; }
    assert m.parent[c := q] == Moved(t, q, done + {c}).parent;
    assert t.children[q] + done + {c} == t.children[q] + (done + {c});
    assert m.children[q := m.children[q] + {c}] == Moved(t, q, done + {c}).children;
  }

  lemma StartHandingDown(t: Tree, p: Pid, before: set<Pid>)
    requires WellFormed(t) && FlagLinked(t.(hasSubreaper := before)) && p in t.children
    ensures HandingDown(t, p, before, before + {p}, [p])
  {
    forall q, c | IsChild(t, q, c) && q in before ensures c in before {
      assert IsChild(t.(hasSubreaper := before), q, c);
    }
  }

  lemma BeforeClosed(t: Tree, q: Pid, before: set<Pid>)
    requires FlagLinked(t.(hasSubreaper := before)) && q in t.children
    ensures q in before ==> t.children[q] <= before
  {
    forall c | c in t.children[q] ensures IsChild(t.(hasSubreaper := before), q, c) {}
  }

  /** A process that has lost its children map owes nothing. */
  lemma SkipCleared(t: Tree, p: Pid, before: set<Pid>, has: set<Pid>, q: Pid, rest: seq<Pid>)
    requires Ranked(t) && HandingDown(t, p, before, has, [q] + rest) && q !in t.children
    ensures HandingDown(t, p, before, has, rest)
  {
    forall r, c | IsChild(t, r, c) && r in has ensures c in has || r in rest {
      assert c in has || r in [q] + rest;
    }
  }

  /** Either nothing was added to the queue, or fewer processes are without the flag. */
  lemma Progress(t: Tree, q: Pid, has: set<Pid>, added: seq<Pid>)
    requires Linked(t) && q in t.children
    requires forall c :: c in added <==> c in t.children[q] && c !in has
    ensures t.parent.Keys - (has + t.children[q]) <= t.parent.Keys - has
    ensures added != [] ==> t.parent.Keys - (has + t.children[q]) < t.parent.Keys - has
  {
    if added != [] {
      var c := added[0];
      assert IsChild(t, q, c);
      assert c in t.parent.Keys - has && c !in t.parent.Keys - (has + t.children[q]);
    }
  }

  lemma FlagsHanded(t: Tree, u: Tree, p: Pid, before: set<Pid>)
    requires Ranked(t) && HandingDown(t, p, before, u.hasSubreaper, []) && u == t.(hasSubreaper := u.hasSubreaper)
    ensures FlagLinked(u)
  {
    forall q, c | IsChild(u, q, c) && q in u.hasSubreaper ensures c in u.hasSubreaper {
      assert IsChild(t, q, c);
    }
  }

  /** Flags are not part of the shape of the tree. */
  lemma SameShape(t: Tree, u: Tree)
    requires u.parent == t.parent && u.children == t.children && u.reaped == t.reaped && u.zombies == t.zombies
    ensures WellFormed(t) ==> WellFormed(u)
    ensures u.hasSubreaper == t.hasSubreaper && FlagLinked(t) ==> FlagLinked(u)
  {
    if WellFormed(t) { LinkedUnchanged(t, u); }
    forall p, c ensures IsChild(u, p, c) <==> IsChild(t, p, c) {}
  }

  lemma {:induction false} SameAncestors(t: Tree, u: Tree, x: Pid)
    requires Ranked(t) && Ranked(u) && u.parent == t.parent && x in t.parent
    ensures Ancestors(u, x) == Ancestors(t, x)
    decreases x
  {
    if x != INIT_PID { SameAncestors(t, u, t.parent[x]); }
  }

  lemma BelowSame(t: Tree, u: Tree, p: Pid)
    requires Ranked(t) && Ranked(u) && u.parent == t.parent
    ensures forall x :: Below(u, p, x) ==> Below(t, p, x)
  {
    forall x | x in t.parent ensures Ancestors(u, x) == Ancestors(t, x) {
      SameAncestors(t, u, x);
    }
  }

  /** The nearest reaper still has its children map, so the hand-over succeeds at once. */
  lemma {:induction false} NearestIsEarlier(t: Tree, q: Pid)
    requires WellFormed(t) && q in t.parent
    ensures NearestReaper(t, q) <= q && NearestReaper(t, q) in t.children && INIT_PID in t.children
    decreases q
  {
    if !Eligible(t, q) { NearestIsEarlier(t, t.parent[q]); }
    assert INIT_PID in t.children;
  }

  class ProcessForest {
    var tree: Tree

    /**
      Walks up from the parent of `p`.  The result is the nearest eligible ancestor exactly when
      the flags reach up to it; without that the caller falls back to init.
     */
    method FindReaperProcess(p: Pid) returns (r: Option<Pid>)
      requires Ranked(tree) && p in tree.parent && p != INIT_PID
      ensures r == if Flagged(tree, tree.parent[p]) then Some(NearestReaper(tree, tree.parent[p])) else None
    {
      var parent := tree.parent[p];
      while true
        invariant parent in tree.parent
        invariant Flagged(tree, tree.parent[p]) == Flagged(tree, parent)
        invariant NearestReaper(tree, tree.parent[p]) == NearestReaper(tree, parent)
        decreases parent
      {
        if tree.parent[parent] == NO_PID {
          assert parent == INIT_PID;
          return Some(parent);
        }
        if parent !in tree.hasSubreaper {
          return None;
        }
        if parent in tree.isSubreaper && parent !in tree.zombies {
          return Some(parent);
        }
        parent := tree.parent[parent];
      }
    }

    /** Fails, without any change, exactly when the reaper has lost its children map. */
    method MoveProcessChildren(p: Pid, q: Pid) returns (ok: bool)
      requires p in tree.children && p in tree.parent && p != q && Linked(tree)
      modifies this
      ensures ok <==> q in old(tree.children)
      ensures tree == if ok then Reparent(old(tree), p, q) else old(tree)
    {
      if q !in tree.children {
        return false;
      }
      ghost var t := tree;
      var todo := tree.children[p];
      ghost var done: set<Pid> := {};
      assert Moved(t, q, {}) == t by { MoveOne(t, q, {}, p); }
      while todo != {}
        invariant done + todo == t.children[p] && todo !! done
        invariant tree == Moved(t, q, done)
        decreases todo
      {
        var c :| c in todo;
        assert IsChild(t, p, c);
        MoveOne(t, q, done, c);
        tree := tree.(parent := tree.parent[c := q],
                      children := tree.children[q := tree.children[q] + {c}]);
        todo := todo - {c};
        done := done + {c};
      }
      assert done == t.children[p];
      tree := tree.(children := tree.children - {p});
      return true;
    }

    /** Flags the children of `q` and returns those that were not flagged before. */
    method FlagChildren(q: Pid) returns (added: seq<Pid>)
      requires q in tree.children
      modifies this
      ensures tree == old(tree).(hasSubreaper := old(tree.hasSubreaper + tree.children[q]))
      ensures forall c :: c in added <==> c in old(tree).children[q] && c !in old(tree.hasSubreaper)
    {
      added := [];
      ghost var has := tree.hasSubreaper;
      var todo := tree.children[q];
      ghost var done: set<Pid> := {};
      while todo != {}
        invariant tree == old(tree).(hasSubreaper := has + done)
        invariant done + todo == tree.children[q]
        invariant forall c :: c in added <==> c in done && c !in has
        decreases todo
      {
        var c :| c in todo;
        if c !in tree.hasSubreaper {
          added := added + [c];
        }
        done := done + {c};
        assert tree.hasSubreaper + {c} == has + done;
        tree := tree.(hasSubreaper := tree.hasSubreaper + {c});
        todo := todo - {c};
      }
      assert done == tree.children[q];
    }

    /** Breadth first, from the children of `p` on, past processes that have the flag already. */
    method PropagateHasChildSubreaper(p: Pid, ghost before: set<Pid>)
      requires WellFormed(tree) && p in tree.children
      requires tree.hasSubreaper == before + {p} && FlagLinked(tree.(hasSubreaper := before))
      modifies this
      ensures tree == old(tree).(hasSubreaper := tree.hasSubreaper)
      ensures HandingDown(old(tree), p, before, tree.hasSubreaper, [])
    {
      ghost var t := tree;
      StartHandingDown(t, p, before);
      var queue := FlagNext([p], t, p, before);
      while queue != []
        invariant tree == t.(hasSubreaper := tree.hasSubreaper)
        invariant HandingDown(t, p, before, tree.hasSubreaper, queue)
        decreases t.parent.Keys - tree.hasSubreaper, |queue|
      {
        queue := FlagNext(queue, t, p, before);
      }
    }

    /** Takes one process off the queue, flags its children and queues those newly flagged. */
    method FlagNext(queue: seq<Pid>, ghost t: Tree, ghost p: Pid, ghost before: set<Pid>) returns (queue': seq<Pid>)
      requires queue != [] && WellFormed(t) && FlagLinked(t.(hasSubreaper := before))
      requires tree == t.(hasSubreaper := tree.hasSubreaper) && HandingDown(t, p, before, tree.hasSubreaper, queue)
      modifies this
      ensures tree == t.(hasSubreaper := tree.hasSubreaper) && HandingDown(t, p, before, tree.hasSubreaper, queue')
      ensures t.parent.Keys - tree.hasSubreaper <= t.parent.Keys - old(tree.hasSubreaper)
      ensures |queue'| < |queue| || t.parent.Keys - tree.hasSubreaper < t.parent.Keys - old(tree.hasSubreaper)
    {
      var q, rest := queue[0], queue[1..];
      ghost var has := tree.hasSubreaper;
      assert queue == [q] + rest;
      if q !in tree.children {
        SkipCleared(t, p, before, has, q, rest);
        return rest;
      }
      var added := FlagChildren(q);
      BeforeClosed(t, q, before);
      HandDown(t, p, before, has, q, rest, added);
      Progress(t, q, has, added);
      return rest + added;
    }

    /**
      Makes `p` a subreaper and hands `has_child_subreaper` down to all its descendants, and to no
      other process.
     */
    method SetChildSubreaper(p: Pid)
      requires WellFormed(tree) && FlagLinked(tree) && p in tree.children
      modifies this
      ensures tree == old(tree).(isSubreaper := old(tree.isSubreaper) + {p}, hasSubreaper := tree.hasSubreaper)
      ensures FlagLinked(tree) && p in tree.hasSubreaper && old(tree.hasSubreaper) <= tree.hasSubreaper
      ensures forall x :: x in tree.hasSubreaper && x !in old(tree.hasSubreaper) ==> Below(old(tree), p, x)
      ensures old(tree.isSubreaper <= tree.hasSubreaper) ==> tree.isSubreaper <= tree.hasSubreaper
    {
      ghost var t := tree;
      tree := tree.(isSubreaper := tree.isSubreaper + {p});
      SameShape(t, tree);
      var hadFlag := p in tree.hasSubreaper;
      tree := tree.(hasSubreaper := tree.hasSubreaper + {p});
      if hadFlag {
        assert tree.hasSubreaper == t.hasSubreaper;
      } else {
        ghost var u := tree;
        SameShape(t, u);
        SameShape(t, u.(hasSubreaper := t.hasSubreaper));
        PropagateHasChildSubreaper(p, t.hasSubreaper);
        FlagsHanded(u, tree, p, t.hasSubreaper);
        BelowSame(t, u, p);
      }
    }

    /**
      The children of an exiting process go to the picked reaper; init keeps its own.
     */
    method MoveChildrenToReaperProcess(p: Pid)
      requires WellFormed(tree) && p in tree.children && p in tree.zombies
      modifies this
      ensures p == INIT_PID ==> tree == old(tree)
      ensures p != INIT_PID ==>
                var q := PickedReaper(old(tree), p);
                q in old(tree).children && tree == Reparent(old(tree), p, q)
      ensures WellFormed(tree)
      ensures old(Settled(tree) && FlagLinked(tree)) && p !in tree.reaped ==> FlagLinked(tree)
    {
      if tree.parent[p] == NO_PID {
        return;
      }
      NearestIsEarlier(tree, tree.parent[p]);
      if Settled(tree) && FlagLinked(tree) && p !in tree.reaped { ReparentKeepsFlags(tree, p); }
      var r := FindReaperProcess(p);
      var target := if r.Some? then r.value else INIT_PID;
      ReparentWellFormed(tree, p, target);
      var ok := MoveProcessChildren(p, target);
    }
  }
}
