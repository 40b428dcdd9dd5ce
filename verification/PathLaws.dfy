/**
  Laws of path resolution: walks compose, spelling does not matter, a trailing slash demands a
  directory, and splitting off the last name agrees with looking the path up.
 */
module PathLaws {
  import opened PathStrings
  import opened PathLookup
  import opened Wrappers

  // ----- Laws of the walk -----

  /** Continues a finished walk with further components. */
  function Continue<N>(fs: Fs<N>, w: Walk<N>, comps: seq<string>, slash: bool, follow: bool): Walk<N>
    requires forall i :: 0 <= i < |comps| ==> IsName(comps[i])
  {
    match w.result
    case Err(_) => w
    case Ok(AtParent(_, _, _)) => Walk(Err(ENOENT), w.left)
    case Ok(Resolved(n)) => Resolve(fs, n, comps, slash, follow, w.left)
  }

  /**
    Walks compose over concatenated components, including the count of links: the front part is
    walked as a directory whose last link is followed, and the rest goes on from there.
   */
  lemma {:induction false} WalkComposes<N>(fs: Fs<N>, cur: N, a: seq<string>, b: seq<string>, slash: bool,
                                           follow: bool, left: nat)
    requires forall i :: 0 <= i < |a| ==> IsName(a[i])
    requires forall i :: 0 <= i < |b| ==> IsName(b[i])
    requires b != []
    ensures Resolve(fs, cur, a + b, slash, follow, left)
         == Continue(fs, Resolve(fs, cur, a, true, true, left), b, slash, follow)
    decreases left, |a|
  {
    if a == [] {
      assert a + b == b;
    } else {
      var rest := a[1..];
      assert (a + b)[0] == a[0] && (a + b)[1..] == rest + b;
      var looked := fs.Lookup(cur, a[0]);
      if looked.Ok? {
        var next := looked.value;
        if fs.kind(next) == SymLink {
          if left > 0 && fs.link(next).Ok? && fs.link(next).value != "" {
            var text := fs.link(next).value;
            var cur' := if StartsWithSlash(text) then fs.root else cur;
            assert Components(text) + (rest + b) == (Components(text) + rest) + b;
            WalkComposes(fs, cur', Components(text) + rest, b, slash, follow, left - 1);
          }
        } else if fs.kind(next) == Dir {
          WalkComposes(fs, next, rest, b, slash, follow, left);
        }
      }
    }
  }

  /** The limit on links matters only when it is exceeded; otherwise the walk uses the same number of links. */
  lemma {:induction false} LimitOnlyStops<N>(fs: Fs<N>, cur: N, comps: seq<string>, slash: bool, follow: bool,
                                             left: nat, more: nat)
    requires forall i :: 0 <= i < |comps| ==> IsName(comps[i])
    requires Resolve(fs, cur, comps, slash, follow, left).result != Err(ELOOP)
    ensures var w := Resolve(fs, cur, comps, slash, follow, left);
            && w.left <= left
            && Resolve(fs, cur, comps, slash, follow, left + more) == Walk(w.result, w.left + more)
    decreases left, |comps|
  {
    if comps != [] {
      var name, rest := comps[0], comps[1..];
      var looked := fs.Lookup(cur, name);
      if looked.Ok? {
        var next := looked.value;
        if fs.kind(next) == SymLink && (follow || rest != []) {
          if fs.link(next).Ok? && fs.link(next).value != "" {
            var text := fs.link(next).value;
            LimitOnlyStops(fs, if StartsWithSlash(text) then fs.root else cur, Components(text) + rest,
                           if rest == [] then slash || EndsWithSlash(text) else slash, follow, left - 1, more);
          }
        } else if !((rest != [] || slash) && fs.kind(next) != Dir) {
          LimitOnlyStops(fs, next, rest, slash, follow, left, more);
        }
      }
    }
  }

  /** A link text without components consists of slashes, so it names the root. */
  lemma LinkTextComponents(text: string)
    requires text != "" && Components(text) == []
    ensures StartsWithSlash(text)
  {
  }

  /** A path ending in a slash resolves only to a directory, or stops at a name that must become one. */
  lemma {:induction false} TrailingSlashMeansDir<N>(fs: Fs<N>, cur: N, comps: seq<string>, follow: bool, left: nat)
    requires forall i :: 0 <= i < |comps| ==> IsName(comps[i])
    requires fs.kind(fs.root) == Dir && (comps == [] ==> fs.kind(cur) == Dir)
    ensures match Resolve(fs, cur, comps, true, follow, left).result
            case Ok(Resolved(n)) => fs.kind(n) == Dir
            case Ok(AtParent(_, _, isDir)) => isDir
            case Err(_) => true
    decreases left, |comps|
  {
    if comps != [] {
      var name, rest := comps[0], comps[1..];
      var looked := fs.Lookup(cur, name);
      if looked.Ok? {
        var next := looked.value;
        if fs.kind(next) == SymLink && (follow || rest != []) {
          if left > 0 && fs.link(next).Ok? && fs.link(next).value != "" {
            var text := fs.link(next).value;
            if Components(text) == [] { LinkTextComponents(text); }
            TrailingSlashMeansDir(fs, if StartsWithSlash(text) then fs.root else cur, Components(text) + rest,
                                  follow, left - 1);
          }
        } else if fs.kind(next) == Dir {
          TrailingSlashMeansDir(fs, next, rest, follow, left);
        }
      }
    }
  }

  /** Dropping the trailing slash does not change where a resolvable path leads. */
  lemma {:induction false} SlashOnlyRestricts<N>(fs: Fs<N>, cur: N, comps: seq<string>, left: nat)
    requires forall i :: 0 <= i < |comps| ==> IsName(comps[i])
    requires Resolve(fs, cur, comps, true, true, left).result.Ok?
    requires Resolve(fs, cur, comps, true, true, left).result.value.Resolved?
    ensures Resolve(fs, cur, comps, false, true, left) == Resolve(fs, cur, comps, true, true, left)
    decreases left, |comps|
  {
    if comps != [] {
      var name, rest := comps[0], comps[1..];
      var next := fs.Lookup(cur, name).value;
      if fs.kind(next) == SymLink {
        var text := fs.link(next).value;
        var cur' := if StartsWithSlash(text) then fs.root else cur;
        if rest != [] || !EndsWithSlash(text) {
          SlashOnlyRestricts(fs, cur', Components(text) + rest, left - 1);
        }
      } else {
        SlashOnlyRestricts(fs, next, rest, left);
      }
    }
  }

  // ----- Whole paths -----

  /** The result of looking `path` up; relative paths start at `base` (the working directory or a descriptor). */
  function LookupPath<N>(fs: Fs<N>, base: N, path: string, follow: bool): Result<Found<N>, Errno> {
    if path == "" then Err(ENOENT)
    else if |path| > PATH_MAX then Err(ENAMETOOLONG)
    else
      Resolve(fs, if StartsWithSlash(path) then fs.root else base, Components(path), EndsWithSlash(path), follow,
              SYMLINKS_MAX).result
  }

  /** `FsPath::from_fd_and_path` followed by `lookup_inner`. */
  method LookupInner<N>(fs: Fs<N>, base: N, path: string, follow: bool) returns (r: Result<Found<N>, Errno>)
    ensures r == LookupPath(fs, base, path, follow)
  {
    if path == "" {
      return Err(ENOENT);
    }
    if |path| > PATH_MAX {
      return Err(ENAMETOOLONG);
    }
    if path[0] == SLASH {
      ComponentsTrimStart(path);
      if Components(path) == [] {
        NoComponents(fs, fs.root, EndsWithSlash(path), EndsWithSlash(TrimStart(path)), follow, SYMLINKS_MAX);
      }
      r := LookupFromParent(fs, fs.root, TrimStart(path), follow);
    } else {
      r := LookupFromParent(fs, base, path, follow);
    }
  }

  /** Two spellings with the same components, start and trailing slash are the same path. */
  lemma SpellingIrrelevant<N>(fs: Fs<N>, base: N, p: string, q: string, follow: bool)
    requires p != "" && q != "" && |p| <= PATH_MAX && |q| <= PATH_MAX
    requires StartsWithSlash(p) == StartsWithSlash(q)
    requires Components(p) == Components(q)
    requires Components(p) != [] ==> EndsWithSlash(p) == EndsWithSlash(q)
    ensures LookupPath(fs, base, p, follow) == LookupPath(fs, base, q, follow)
  {
    if Components(p) == [] {
      NoComponents(fs, fs.root, EndsWithSlash(p), EndsWithSlash(q), follow, SYMLINKS_MAX);
      NoComponents(fs, base, EndsWithSlash(p), EndsWithSlash(q), follow, SYMLINKS_MAX);
    }
  }

  /** A path that ends in a slash leads only to a directory, or to a missing name that must become one. */
  lemma SlashPathMeansDir<N>(fs: Fs<N>, base: N, path: string, follow: bool)
    requires EndsWithSlash(path) && fs.kind(fs.root) == Dir
    ensures match LookupPath(fs, base, path, follow)
            case Ok(Resolved(n)) => fs.kind(n) == Dir
            case Ok(AtParent(_, _, isDir)) => isDir
            case Err(_) => true
  {
    if Components(path) == [] { LinkTextComponents(path); }
    TrailingSlashMeansDir(fs, if StartsWithSlash(path) then fs.root else base, Components(path), follow, SYMLINKS_MAX);
  }

  // ----- Splitting off the last name -----

  /** Splits a path without trailing slashes behind its last slash. */
  function SplitLast(trimmed: string): (string, string) {
    var pos := AfterLastSlash(trimmed);
    if pos > 0 then
      var dirname := TrimEnd(trimmed[..pos - 1]);
      (if dirname == "" then "/" else dirname, trimmed[pos..])
    else (".", trimmed)
  }

  function SplitDirnameAndBasename(path: string): Result<(string, string), Errno> {
    if path == "" then Err(ENOENT)
    else if TrimEnd(path) == "" then Err(EBUSY)
    else Ok(SplitLast(TrimEnd(path)))
  }

  function SplitDirnameAndFilename(path: string): Result<(string, string), Errno> {
    if EndsWithSlash(path) then Err(EISDIR) else SplitDirnameAndBasename(path)
  }

  /** `dir` and `name` are the parts of a path with at least one component. */
  ghost predicate IsSplit(path: string, dir: string, name: string) {
    && IsName(name)
    && dir != "" && |dir| <= |path|
    && StartsWithSlash(dir) == StartsWithSlash(path)
    && (EndsWithSlash(dir) ==> dir == "/")
    && (if !StartsWithSlash(path) && |Components(path)| == 1 then
          dir == "." && Components(path) == [name]
        else
          Components(path) == Components(dir) + [name])
  }

  lemma {:induction false} NoTrailingSlash(s: string)
    requires s != "" && !EndsWithSlash(s)
    ensures Components(s) != []
    decreases |s|
  {
    if s[0] == SLASH {
      NoTrailingSlash(s[1..]);
    }
  }

  lemma {:induction false} TrimmedAway(s: string)
    requires TrimEnd(s) == ""
    ensures s == "" || StartsWithSlash(s)
    decreases |s|
  {
    if |s| > 1 { TrimmedAway(s[..|s| - 1]); }
  }

  /** The trimmed front part of a path starts like the path, and has components unless it is empty. */
  lemma TrimmedDir(front: string, path: string)
    requires front + [SLASH] <= path
    ensures var dir := TrimEnd(front);
            && (dir != "" ==> StartsWithSlash(dir) == StartsWithSlash(path) && Components(dir) != [])
            && (dir == "" ==> StartsWithSlash(path) && Components(front) == [])
    ensures Components("/") == []
  {
    var dir := TrimEnd(front);
    ComponentsTrimEnd(front);
    if dir != "" {
      assert path[0] == front[0] == dir[0];
      NoTrailingSlash(dir);
    } else {
      TrimmedAway(front);
      assert path[0] == (front + [SLASH])[0];
    }
    assert "/"[1..] == "";
  }

  /** A path with a slash before its last name. */
  lemma SplitBehindSlash(path: string, front: string, name: string)
    requires IsName(name) && path == front + [SLASH] + name
    ensures IsSplit(path, if TrimEnd(front) == "" then "/" else TrimEnd(front), name)
  {
    ComponentsOfName(name);
    ComponentsJoin(front, name);
    ComponentsTrimEnd(front);
    TrimmedDir(front, path);
  }

  lemma SplitTrimmed(trimmed: string)
    requires trimmed != "" && !EndsWithSlash(trimmed)
    ensures IsSplit(trimmed, SplitLast(trimmed).0, SplitLast(trimmed).1)
  {
    var pos := AfterLastSlash(trimmed);
    assert pos < |trimmed|;
    var name := trimmed[pos..];
    if pos > 0 {
      assert trimmed == trimmed[..pos - 1] + [SLASH] + name;
      SplitBehindSlash(trimmed, trimmed[..pos - 1], name);
    } else {
      assert trimmed == name;
      ComponentsOfName(name);
    }
  }

  /** A longer spelling with the same start and components splits the same way. */
  lemma SplitSpelling(path: string, trimmed: string, dir: string, name: string)
    requires IsSplit(trimmed, dir, name) && |trimmed| <= |path|
    requires Components(trimmed) == Components(path) && StartsWithSlash(trimmed) == StartsWithSlash(path)
    ensures IsSplit(path, dir, name)
  {
  }

  /**
    A non-empty path splits unless it consists of slashes only.  The base name is the last
    component; the directory name spells the other components, starts at the same place, ends in
    no slash unless it is the root, and is no longer than the path.
   */
  lemma SplitComponents(path: string)
    requires path != ""
    ensures Components(path) == [] <==> SplitDirnameAndBasename(path) == Err(EBUSY)
    ensures Components(path) != [] ==>
              && SplitDirnameAndBasename(path).Ok?
              && IsSplit(path, SplitDirnameAndBasename(path).value.0, SplitDirnameAndBasename(path).value.1)
  {
    var trimmed := TrimEnd(path);
    ComponentsTrimEnd(path);
    if trimmed == "" {
      assert Components(trimmed) == [];
    } else {
      NoTrailingSlash(trimmed);
      SplitTrimmed(trimmed);
      SplitSpelling(path, trimmed, SplitLast(trimmed).0, SplitLast(trimmed).1);
    }
  }

  /** For a file name a trailing slash is an error; any other path that is not empty splits. */
  lemma FilenameSplits(path: string)
    requires path != ""
    ensures EndsWithSlash(path) <==> SplitDirnameAndFilename(path) == Err(EISDIR)
    ensures !EndsWithSlash(path) ==>
              && SplitDirnameAndFilename(path).Ok?
              && IsSplit(path, SplitDirnameAndFilename(path).value.0, SplitDirnameAndFilename(path).value.1)
  {
    SplitComponents(path);
    if !EndsWithSlash(path) { NoTrailingSlash(path); }
  }

  /** Mounts put directories over directories. */
  ghost predicate MountsOverDirs<N(!new)>(fs: Fs<N>) {
    forall n :: fs.kind(n) == Dir ==> fs.kind(fs.top(n)) == Dir
  }

  /** Looking up a single name without following it stops exactly when the name is missing. */
  lemma LastName<N>(fs: Fs<N>, cur: N, name: string, slash: bool, left: nat)
    requires IsName(name)
    ensures var r := Resolve(fs, cur, [name], slash, false, left).result;
            if fs.Lookup(cur, name) == Err(ENOENT) then r == Ok(AtParent(cur, name, slash))
            else r.Err? || r.value.Resolved?
  {
    assert [name][1..] == [];
  }

  /** A walk that stops at a missing last name stopped in the node the other components lead to. */
  lemma StopsAtDirname<N>(fs: Fs<N>, start: N, front: seq<string>, name: string, slash: bool,
                          parent: N, missing: string, isDir: bool)
    requires forall i :: 0 <= i < |front| ==> IsName(front[i])
    requires IsName(name)
    requires Resolve(fs, start, front + [name], slash, false, SYMLINKS_MAX).result
          == Ok(AtParent(parent, missing, isDir))
    ensures missing == name && isDir == slash
    ensures fs.Lookup(parent, name) == Err(ENOENT)
    ensures Resolve(fs, start, front, false, true, SYMLINKS_MAX).result == Ok(Resolved(parent))
  {
    WalkComposes(fs, start, front, [name], slash, false, SYMLINKS_MAX);
    var w := Resolve(fs, start, front, true, true, SYMLINKS_MAX);
    SlashOnlyRestricts(fs, start, front, SYMLINKS_MAX);
    LastName(fs, w.result.value.node, name, slash, w.left);
  }

  lemma DotLookup<N(!new)>(fs: Fs<N>, base: N)
    requires MountsOverDirs(fs) && fs.kind(base) == Dir && fs.searchable(base)
    ensures LookupPath(fs, base, ".", true) == Ok(Resolved(fs.top(base)))
  {
    ComponentsOfName(".");
    assert ["."][1..] == [];
    assert fs.Lookup(base, ".") == Ok(fs.top(base));
    assert Resolve(fs, fs.top(base), [], false, true, SYMLINKS_MAX).result == Ok(Resolved(fs.top(base)));
  }

  /**
    Splitting agrees with lookup.  When looking a path up without following a last link stops at
    a missing name, the base name is that name, and looking up the directory name leads to the
    same parent, except that for a lone relative name it leads to what is mounted over the start.
   */
  lemma SplitAgreesWithLookup<N(!new)>(fs: Fs<N>, base: N, path: string, parent: N, missing: string, isDir: bool)
    requires MountsOverDirs(fs)
    requires LookupPath(fs, base, path, false) == Ok(AtParent(parent, missing, isDir))
    ensures SplitDirnameAndBasename(path).Ok?
    ensures var (dir, name) := SplitDirnameAndBasename(path).value;
            && name == missing
            && isDir == EndsWithSlash(path)
            && (SplitDirnameAndFilename(path).Ok? <==> !isDir)
            && LookupPath(fs, base, dir, true) ==
                 Ok(Resolved(if !StartsWithSlash(path) && |Components(path)| == 1 then fs.top(parent) else parent))
  {
    var start := if StartsWithSlash(path) then fs.root else base;
    SplitComponents(path);
    var (dir, name) := SplitDirnameAndBasename(path).value;
    if !StartsWithSlash(path) && |Components(path)| == 1 {
      assert [] + [name] == [name];
      StopsAtDirname(fs, start, [], name, EndsWithSlash(path), parent, missing, isDir);
      DotLookup(fs, base);
    } else {
      StopsAtDirname(fs, start, Components(dir), name, EndsWithSlash(path), parent, missing, isDir);
      if dir == "/" {
        NoComponents(fs, start, EndsWithSlash(dir), false, true, SYMLINKS_MAX);
        TrimmedDir("", "/");
      }
    }
  }

  /** The exception is real: with node 2 mounted over the start 1, "a" is missing in 1 but "." is 2. */
  lemma MountedStartDiffers() returns (fs: Fs<int>)
    ensures MountsOverDirs(fs)
    ensures LookupPath(fs, 1, "a", false) == Ok(AtParent(1, "a", false))
    ensures SplitDirnameAndBasename("a") == Ok((".", "a"))
    ensures LookupPath(fs, 1, ".", true) == Ok(Resolved(2))
  {
    fs := Fs(0, (n: int) => Dir, (n: int) => true, (n: int) => 0, (n: int, s: string) => Err(ENOENT),
             (n: int) => if n == 1 then 2 else n, (n: int) => Ok(""));
    ComponentsOfName("a");
    LastName(fs, 1, "a", false, SYMLINKS_MAX);
    DotLookup(fs, 1);
  }
}
