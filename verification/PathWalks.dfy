/**
  Where a path leads, told by the nodes its names look up to, one after the other.
 */
module PathWalks {
  import opened PathStrings
  import opened PathLookup
  import opened PathLaws
  import opened Wrappers

  function LastOf<N>(cur: N, ns: seq<N>): N {
    if ns == [] then cur else ns[|ns| - 1]
  }

  /** The first names of `comps` look up, one after the other from `cur` on, to the nodes `ns`. */
  ghost predicate Visits<N>(fs: Fs<N>, cur: N, comps: seq<string>, ns: seq<N>) {
    && |ns| <= |comps|
    && (forall i :: 0 <= i < |comps| ==> IsName(comps[i]))
    && (forall i :: 0 <= i < |ns| ==> fs.Lookup(LastOf(cur, ns[..i]), comps[i]) == Ok(ns[i]))
  }

  ghost predicate AllDirs<N>(fs: Fs<N>, ns: seq<N>) {
    forall i :: 0 <= i < |ns| ==> fs.kind(ns[i]) == Dir
  }

  lemma LastOfTail<N>(cur: N, ns: seq<N>, i: nat)
    requires i < |ns|
    ensures LastOf(ns[0], ns[1..][..i]) == LastOf(cur, ns[..i + 1])
  {
  }

  lemma VisitsTail<N>(fs: Fs<N>, cur: N, comps: seq<string>, ns: seq<N>)
    requires Visits(fs, cur, comps, ns) && ns != []
    ensures fs.Lookup(cur, comps[0]) == Ok(ns[0])
    ensures Visits(fs, ns[0], comps[1..], ns[1..]) && LastOf(ns[0], ns[1..]) == LastOf(cur, ns)
  {
    assert ns[..0] == [];
    forall i | 0 <= i < |ns| - 1 ensures fs.Lookup(LastOf(ns[0], ns[1..][..i]), comps[1..][i]) == Ok(ns[1..][i]) {
      LastOfTail(cur, ns, i);
      assert comps[1..][i] == comps[i + 1] && ns[1..][i] == ns[i + 1];
    }
  }

  /** Directories are passed through, with or without a trailing slash and whatever happens to a last link. */
  lemma {:induction false} PassesDirs<N>(fs: Fs<N>, cur: N, comps: seq<string>, ns: seq<N>, slash: bool, follow: bool,
                                         left: nat)
    requires Visits(fs, cur, comps, ns) && AllDirs(fs, ns)
    ensures Resolve(fs, cur, comps, slash, follow, left)
         == Resolve(fs, LastOf(cur, ns), comps[|ns|..], slash, follow, left)
    decreases |ns|
  {
    if ns == [] {
      assert comps[0..] == comps;
    } else {
      VisitsTail(fs, cur, comps, ns);
      PassesDirs(fs, ns[0], comps[1..], ns[1..], slash, follow, left);
      assert comps[1..][|ns| - 1..] == comps[|ns|..];
    }
  }

  /** The same up to the last node, which is looked up from the directory before it. */
  lemma PassesToLast<N>(fs: Fs<N>, cur: N, comps: seq<string>, ns: seq<N>, slash: bool, follow: bool, left: nat)
    requires Visits(fs, cur, comps, ns) && ns != [] && AllDirs(fs, ns[..|ns| - 1])
    ensures var front, rest := ns[..|ns| - 1], comps[|ns| - 1..];
            && fs.Lookup(LastOf(cur, front), rest[0]) == Ok(ns[|ns| - 1]) && rest[1..] == comps[|ns|..]
            && Resolve(fs, cur, comps, slash, follow, left)
               == Resolve(fs, LastOf(cur, front), rest, slash, follow, left)
  {
    var front := ns[..|ns| - 1];
    forall i | 0 <= i < |front| ensures fs.Lookup(LastOf(cur, front[..i]), comps[i]) == Ok(front[i]) {
      assert front[..i] == ns[..i];
    }
    PassesDirs(fs, cur, comps, front, slash, follow, left);
  }

  // ----- Whole paths -----

  function StartOf<N>(fs: Fs<N>, base: N, path: string): N {
    if StartsWithSlash(path) then fs.root else base
  }

  /** A path that is looked at at all, and the nodes its first names look up to. */
  ghost predicate Leads<N>(fs: Fs<N>, base: N, path: string, ns: seq<N>) {
    path != "" && |path| <= PATH_MAX && Visits(fs, StartOf(fs, base, path), Components(path), ns)
  }

  /** The last of `ns` is a symbolic link that is followed. */
  ghost predicate FollowsLast<N>(fs: Fs<N>, path: string, ns: seq<N>, follow: bool) {
    ns != [] && fs.kind(ns[|ns| - 1]) == SymLink && (follow || |ns| < |Components(path)|)
  }

  /**
    A path resolves to the node its last name looks up to, whatever kind of node that is, if the
    nodes before are directories, the last one is no link to be followed, and a trailing slash
    finds a directory.
   */
  lemma PathResolves<N>(fs: Fs<N>, base: N, path: string, ns: seq<N>, follow: bool)
    requires Leads(fs, base, path, ns) && |ns| == |Components(path)|
    requires ns != [] ==> AllDirs(fs, ns[..|ns| - 1]) && !FollowsLast(fs, path, ns, follow)
    requires ns != [] && EndsWithSlash(path) ==> fs.kind(ns[|ns| - 1]) == Dir
    ensures LookupPath(fs, base, path, follow) == Ok(Resolved(LastOf(StartOf(fs, base, path), ns)))
  {
    var start, comps := StartOf(fs, base, path), Components(path);
    if ns != [] {
      PassesToLast(fs, start, comps, ns, EndsWithSlash(path), follow, SYMLINKS_MAX);
      assert comps[|ns|..] == [];
    }
  }

  /** The error of the first failing lookup is returned, unless the last name is missing. */
  lemma FirstErrorStops<N>(fs: Fs<N>, base: N, path: string, ns: seq<N>, follow: bool, e: Errno)
    requires Leads(fs, base, path, ns) && |ns| < |Components(path)| && AllDirs(fs, ns)
    requires fs.Lookup(LastOf(StartOf(fs, base, path), ns), Components(path)[|ns|]) == Err(e)
    ensures LookupPath(fs, base, path, follow)
         == if e == ENOENT && |ns| + 1 == |Components(path)| then
              Ok(AtParent(LastOf(StartOf(fs, base, path), ns), Components(path)[|ns|], EndsWithSlash(path)))
            else Err(e)
  {
    PassesDirs(fs, StartOf(fs, base, path), Components(path), ns, EndsWithSlash(path), follow, SYMLINKS_MAX);
  }

  /** A node that is no directory, followed by more path or by a slash. */
  lemma NotDirStops<N>(fs: Fs<N>, base: N, path: string, ns: seq<N>, follow: bool)
    requires Leads(fs, base, path, ns) && ns != [] && AllDirs(fs, ns[..|ns| - 1])
    requires fs.kind(ns[|ns| - 1]) != Dir && !FollowsLast(fs, path, ns, follow)
    requires |ns| < |Components(path)| || EndsWithSlash(path)
    ensures LookupPath(fs, base, path, follow) == Err(ENOTDIR)
  {
    PassesToLast(fs, StartOf(fs, base, path), Components(path), ns, EndsWithSlash(path), follow, SYMLINKS_MAX);
  }

  /** A directory that may not be searched, and a name that is too long. */
  lemma LookupIsGuarded<N>(fs: Fs<N>, base: N, path: string, ns: seq<N>, follow: bool)
    requires Leads(fs, base, path, ns) && |ns| < |Components(path)| && AllDirs(fs, ns)
    ensures var dir := LastOf(StartOf(fs, base, path), ns);
            && (fs.kind(dir) != Dir ==> LookupPath(fs, base, path, follow) == Err(ENOTDIR))
            && (fs.kind(dir) == Dir && !fs.searchable(dir) ==> LookupPath(fs, base, path, follow) == Err(EACCES))
            && (fs.kind(dir) == Dir && fs.searchable(dir) && |Components(path)[|ns|]| > 255 ==>
                  LookupPath(fs, base, path, follow) == Err(ENAMETOOLONG))
  {
    PassesDirs(fs, StartOf(fs, base, path), Components(path), ns, EndsWithSlash(path), follow, SYMLINKS_MAX);
  }

  /**
    A symbolic link before the end, or followed at the end, is replaced by its text: the walk goes
    on from the root or from the directory of the link, with one link less to spend.
   */
  lemma LinkIsReplaced<N>(fs: Fs<N>, base: N, path: string, ns: seq<N>, follow: bool)
    requires Leads(fs, base, path, ns) && FollowsLast(fs, path, ns, follow) && AllDirs(fs, ns[..|ns| - 1])
    ensures var r := LookupPath(fs, base, path, follow);
            match fs.link(ns[|ns| - 1])
            case Err(e) => r == Err(e)
            case Ok(text) =>
              if text == "" then r == Err(ENOENT)
              else
                var dir, rest := LastOf(StartOf(fs, base, path), ns[..|ns| - 1]), Components(path)[|ns|..];
                r == Resolve(fs, StartOf(fs, dir, text), Components(text) + rest,
                             EndsWithSlash(path) || (rest == [] && EndsWithSlash(text)), follow,
                             SYMLINKS_MAX - 1).result
  {
    PassesToLast(fs, StartOf(fs, base, path), Components(path), ns, EndsWithSlash(path), follow, SYMLINKS_MAX);
  }

  /** A link to itself is given up, however many links may be followed. */
  lemma {:induction false} SelfLinkLoops<N>(fs: Fs<N>, cur: N, name: string, next: N, slash: bool, left: nat)
    requires IsName(name) && fs.Lookup(cur, name) == Ok(next)
    requires fs.kind(next) == SymLink && fs.link(next) == Ok(name)
    ensures Resolve(fs, cur, [name], slash, true, left).result == Err(ELOOP)
    decreases left
  {
    assert [name][1..] == [];
    if left > 0 {
      ComponentsOfName(name);
      assert Components(name) + [] == [name];
      SelfLinkLoops(fs, cur, name, next, slash || EndsWithSlash(name), left - 1);
    }
  }

  /** Going into a directory and back by `..` leads to where it started, and so does `.`. */
  lemma DotDotReturns<N>(fs: Fs<N>, cur: N, name: string, next: N, slash: bool, follow: bool, left: nat)
    requires IsName(name) && fs.Lookup(cur, name) == Ok(next)
    requires fs.kind(next) == Dir && fs.searchable(next) && fs.parent(next) == cur
    requires fs.kind(fs.top(cur)) == Dir
    ensures Resolve(fs, cur, [name, ".."], slash, follow, left).result == Ok(Resolved(fs.top(cur)))
    ensures Resolve(fs, cur, ["."], slash, follow, left).result == Ok(Resolved(fs.top(cur)))
  {
    var ns := [next, fs.top(cur)];
    assert ns[..0] == [] && ns[..1] == [next];
    PassesDirs(fs, cur, [name, ".."], ns, slash, follow, left);
    assert [fs.top(cur)][..0] == [];
    PassesDirs(fs, cur, ["."], [fs.top(cur)], slash, follow, left);
  }

  /** What is mounted over a node is not itself mounted over. */
  ghost predicate MountsOnTop<N(!new)>(fs: Fs<N>) {
    fs.top(fs.root) == fs.root && forall n :: fs.top(fs.top(n)) == fs.top(n)
  }

  /** A path never leads to a node hidden under a mount. */
  lemma {:induction false} NeverHidden<N(!new)>(fs: Fs<N>, cur: N, comps: seq<string>, slash: bool, follow: bool,
                                                left: nat)
    requires forall i :: 0 <= i < |comps| ==> IsName(comps[i])
    requires MountsOnTop(fs) && (comps == [] ==> fs.top(cur) == cur)
    ensures match Resolve(fs, cur, comps, slash, follow, left).result
            case Ok(Resolved(n)) => fs.top(n) == n
            case _ => true
    decreases left, |comps|
  {
    if comps != [] {
      var name, rest := comps[0], comps[1..];
      var looked := fs.Lookup(cur, name);
      if looked.Ok? {
        var next := looked.value;
        if fs.kind(next) == SymLink && (follow || rest != []) {
          if left > 0 && fs.link(next).Ok? && fs.link(next).value != "" {
            var text := fs.link(next).value;
            if Components(text) == [] { LinkTextComponents(text); }
            NeverHidden(fs, if StartsWithSlash(text) then fs.root else cur, Components(text) + rest,
                        if rest == [] then slash || EndsWithSlash(text) else slash, follow, left - 1);
          }
        } else if !((rest != [] || slash) && fs.kind(next) != Dir) {
          NeverHidden(fs, next, rest, slash, follow, left);
        }
      }
    }
  }
}
