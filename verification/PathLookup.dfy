/**
  Path resolution: a loop that rewrites a path string and splices symbolic links into it, proved
  against a recursive resolver over lists of components (pathname resolution in section 4.13 of
  the Base Definitions of POSIX.1-2017).
 */
module PathLookup {
  import opened PathStrings
  import opened Wrappers

  const PATH_MAX := 4096
  const NAME_MAX := 255
  const SYMLINKS_MAX := 40

  datatype InodeType = Unknown | NamedPipe | CharDevice | Dir | BlockDevice | File | SymLink | Socket

  /** The file system as the resolver sees it; `N` are the nodes of the mounted tree. */
  datatype Fs<!N> = Fs(
    root: N,
    kind: N -> InodeType,
    searchable: N -> bool,                     // the caller may search the directory
    parent: N -> N,                            // `..`
    child: (N, string) -> Result<N, Errno>,    // directory entries
    top: N -> N,                               // the root of what is mounted over a node, if anything
    link: N -> Result<string, Errno>)          // the text of a symbolic link
  {
    /** Looking up one name in a node; it is never asked for an empty name. */
    function Lookup(dir: N, name: string): Result<N, Errno>
      requires IsName(name)
    {
      if kind(dir) != Dir then Err(ENOTDIR)
      else if !searchable(dir) then Err(EACCES)
      else if |name| > NAME_MAX then Err(ENAMETOOLONG)
      else if name == "." then Ok(top(dir))
      else if name == ".." then Ok(top(parent(dir)))
      else match child(dir, name)
        case Ok(n) => Ok(top(n))
        case Err(e) => Err(e)
    }
  }

  datatype Found<N> =
    | Resolved(node: N)
    | AtParent(parent: N, name: string, isDir: bool)   // the last name does not exist

  // ----- Resolution over components -----

  /** The outcome of a walk, with the number of symbolic links it could still have followed. */
  datatype Walk<N> = Walk(result: Result<Found<N>, Errno>, left: nat)

  /**
    Resolves `comps` from `cur`.  `slash` tells whether the path ended in a slash, `follow` whether
    a symbolic link at the very end is followed, `left` how many links may still be followed.
   */
  function Resolve<N>(fs: Fs<N>, cur: N, comps: seq<string>, slash: bool, follow: bool, left: nat): Walk<N>
    requires forall i :: 0 <= i < |comps| ==> IsName(comps[i])
    decreases left, |comps|
  {
    if comps == [] then Walk(Ok(Resolved(cur)), left)
    else
      var name, rest := comps[0], comps[1..];
      var isDir := rest != [] || slash;
      match fs.Lookup(cur, name)
      case Err(e) =>
        Walk(if rest == [] && e == ENOENT then Ok(AtParent(cur, name, isDir)) else Err(e), left)
      case Ok(next) =>
        if fs.kind(next) == SymLink && (follow || rest != []) then
          if left == 0 then Walk(Err(ELOOP), left)
          else match fs.link(next)
            case Err(e) => Walk(Err(e), left)
            case Ok(text) =>
              if text == "" then Walk(Err(ENOENT), left)
              else
                Resolve(fs, if StartsWithSlash(text) then fs.root else cur, Components(text) + rest,
                        if rest == [] then slash || EndsWithSlash(text) else slash, follow, left - 1)
        else if isDir && fs.kind(next) != Dir then Walk(Err(ENOTDIR), left)
        else Resolve(fs, next, rest, slash, follow, left)
  }

  // ----- The loop -----

  /** The path after a symbolic link was spliced in front of what remained. */
  function Splice(text: string, remain: string, isDir: bool): string {
    if remain != "" then text + [SLASH] + remain
    else if isDir then text + [SLASH]
    else text
  }

  lemma SpliceComponents(text: string, remain: string, isDir: bool)
    requires text != "" && !StartsWithSlash(remain)
    ensures var s := Splice(text, remain, isDir);
            && Components(s) == Components(text) + Components(remain)
            && StartsWithSlash(s) == StartsWithSlash(text)
            && EndsWithSlash(s) == if remain != "" then EndsWithSlash(remain) else isDir || EndsWithSlash(text)
  {
    if remain != "" {
      ComponentsJoin(text, remain);
    } else if isDir {
      ComponentsJoin(text, "");
      assert text + [SLASH] == text + [SLASH] + "";
    }
  }

  /** Once no component is left the trailing-slash flag does not matter. */
  lemma NoComponents<N>(fs: Fs<N>, cur: N, a: bool, b: bool, follow: bool, left: nat)
    ensures Resolve(fs, cur, [], a, follow, left) == Resolve(fs, cur, [], b, follow, left)
  {
  }

  /** The walk of a string: its components and whether it ends in a slash. */
  function ResolveString<N>(fs: Fs<N>, cur: N, path: string, follow: bool, left: nat): Walk<N> {
    Resolve(fs, cur, Components(path), EndsWithSlash(path), follow, left)
  }

  /** What one turn of the loop takes off a path: a name, the rest, and whether the name must be a directory. */
  ghost predicate TakesFirst(path: string, name: string, remain: string, isDir: bool) {
    && IsName(name) && !StartsWithSlash(remain) && |remain| < |path|
    && Components(path) == [name] + Components(remain)
    && (remain == "" <==> Components(remain) == [])
    && isDir == (remain != "" || EndsWithSlash(path))
    && (remain != "" ==> EndsWithSlash(remain) == EndsWithSlash(path))
  }

  method TakeFirst(path: string) returns (name: string, remain: string, isDir: bool)
    requires path != "" && !StartsWithSlash(path)
    ensures TakesFirst(path, name, remain, isDir)
  {
    FirstComponent(path);
    var split := SplitOnce(path);
    if split.Some? {
      name, remain, isDir := split.value.0, TrimStart(split.value.1), true;
    } else {
      name, remain, isDir := path, "", false;
    }
    ComponentsTrimStart(remain);
  }

  /** What the component resolver does at a link it follows. */
  lemma LinkResolves<N>(fs: Fs<N>, cur: N, name: string, rest: seq<string>, slash: bool, follow: bool,
                        left: nat, next: N, text: string)
    requires IsName(name) && forall c :: c in rest ==> IsName(c)
    requires fs.Lookup(cur, name) == Ok(next) && fs.kind(next) == SymLink
    requires (follow || rest != []) && left > 0 && fs.link(next) == Ok(text) && text != ""
    ensures Resolve(fs, cur, [name] + rest, slash, follow, left)
         == Resolve(fs, if StartsWithSlash(text) then fs.root else cur, Components(text) + rest,
                    if rest == [] then slash || EndsWithSlash(text) else slash, follow, left - 1)
  {
    assert ([name] + rest)[1..] == rest;
  }

  /** Dropping leading slashes changes neither the components nor, if there are any, the trailing slash. */
  lemma TrimmedResolves<N>(fs: Fs<N>, cur: N, s: string, follow: bool, left: nat)
    ensures ResolveString(fs, cur, TrimStart(s), follow, left) == ResolveString(fs, cur, s, follow, left)
  {
    ComponentsTrimStart(s);
    if Components(s) == [] {
      NoComponents(fs, cur, EndsWithSlash(s), EndsWithSlash(TrimStart(s)), follow, left);
    }
  }

  /** Following a link: the rewritten string is walked as the component resolver prescribes. */
  lemma FollowLink<N>(fs: Fs<N>, cur: N, path: string, name: string, remain: string, isDir: bool, follow: bool,
                      left: nat, next: N, text: string)
    requires TakesFirst(path, name, remain, isDir) && fs.Lookup(cur, name) == Ok(next) && fs.kind(next) == SymLink
    requires (follow || remain != "") && left > 0 && fs.link(next) == Ok(text) && text != ""
    ensures var s := Splice(text, remain, isDir);
            ResolveString(fs, cur, path, follow, left)
            == ResolveString(fs, if StartsWithSlash(s) then fs.root else cur, TrimStart(s), follow, left - 1)
  {
    var s := Splice(text, remain, isDir);
    SpliceComponents(text, remain, isDir);
    LinkResolves(fs, cur, name, Components(remain), EndsWithSlash(path), follow, left, next, text);
    TrimmedResolves(fs, if StartsWithSlash(s) then fs.root else cur, s, follow, left - 1);
  }

  /** Stepping into a node that is not followed. */
  lemma StepInto<N>(fs: Fs<N>, cur: N, path: string, name: string, remain: string, isDir: bool, follow: bool,
                    left: nat, next: N)
    requires TakesFirst(path, name, remain, isDir) && fs.Lookup(cur, name) == Ok(next)
    requires !(fs.kind(next) == SymLink && (follow || remain != ""))
    requires !(isDir && fs.kind(next) != Dir)
    ensures ResolveString(fs, cur, path, follow, left) == ResolveString(fs, next, remain, follow, left)
  {
    ComponentsTrimStart(remain);
    assert Components(path)[1..] == Components(remain);
    if Components(remain) == [] {
      NoComponents(fs, next, EndsWithSlash(path), EndsWithSlash(remain), follow, left);
    }
  }

  /**
    `lookup_from_parent`: the string-rewriting loop returns what the component resolver returns
    with `SYMLINKS_MAX` links to spend, for every spelling of the path.
   */
  method LookupFromParent<N>(fs: Fs<N>, parent: N, path: string, follow: bool)
    returns (r: Result<Found<N>, Errno>)
    requires !StartsWithSlash(path)
    ensures |path| > PATH_MAX ==> r == Err(ENAMETOOLONG)
    ensures |path| <= PATH_MAX ==> r == ResolveString(fs, parent, path, follow, SYMLINKS_MAX).result
  {
    if |path| > PATH_MAX {
      return Err(ENAMETOOLONG);
    }
    if path == "" {
      return Ok(Resolved(parent));
    }
    ghost var walk := ResolveString(fs, parent, path, follow, SYMLINKS_MAX);
    var follows := 0;
    var currentPath, relativePath := parent, path;
    while relativePath != ""
      invariant !StartsWithSlash(relativePath) && follows <= SYMLINKS_MAX
      invariant walk == ResolveString(fs, currentPath, relativePath, follow, SYMLINKS_MAX - follows)
      decreases SYMLINKS_MAX - follows, |relativePath|
    {
      var nextName, pathRemain, targetIsDir := TakeFirst(relativePath);
      var nextIsTail := pathRemain == "";
      var looked := fs.Lookup(currentPath, nextName);
      if looked.Err? {
        if nextIsTail && looked.error == ENOENT {
          return Ok(AtParent(currentPath, nextName, targetIsDir));
        }
        return Err(looked.error);
      }
      var nextPath := looked.value;
      if fs.kind(nextPath) == SymLink && (follow || !nextIsTail) {
        if follows >= SYMLINKS_MAX {
          return Err(ELOOP);
        }
        var text := fs.link(nextPath);
        if text.Err? {
          return Err(text.error);
        }
        if text.value == "" {
          return Err(ENOENT);
        }
        var linkPath := Splice(text.value, pathRemain, targetIsDir);
        FollowLink(fs, currentPath, relativePath, nextName, pathRemain, targetIsDir, follow,
                   SYMLINKS_MAX - follows, nextPath, text.value);
        if StartsWithSlash(linkPath) {
          currentPath := fs.root;
        }
        relativePath := TrimStart(linkPath);
        follows := follows + 1;
      } else {
        if targetIsDir && fs.kind(nextPath) != Dir {
          return Err(ENOTDIR);
        }
        StepInto(fs, currentPath, relativePath, nextName, pathRemain, targetIsDir, follow,
                 SYMLINKS_MAX - follows, nextPath);
        currentPath := nextPath;
        relativePath := pathRemain;
      }
    }
    return Ok(Resolved(currentPath));
  }
}
