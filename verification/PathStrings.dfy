/** Slash-separated path strings: their components, and the string operations of the resolver. */
module PathStrings {
  import opened Wrappers

  const SLASH := '/'

  predicate EndsWithSlash(s: string) {
    s != "" && s[|s| - 1] == SLASH
  }

  predicate StartsWithSlash(s: string) {
    s != "" && s[0] == SLASH
  }

  /** A name that may be looked up in a directory. */
  predicate IsName(s: string) {
    s != "" && SLASH !in s
  }

  /** The length of the longest prefix without a slash. */
  function NameLen(s: string): (n: nat)
    ensures n <= |s| && SLASH !in s[..n]
    ensures n < |s| ==> s[n] == SLASH
  {
    if s == "" || s[0] == SLASH then 0 else 1 + NameLen(s[1..])
  }

  /** The non-empty names between the slashes. */
  function Components(s: string): (c: seq<string>)
    ensures forall i :: 0 <= i < |c| ==> IsName(c[i])
    decreases |s|
  {
    if s == "" then []
    else if s[0] == SLASH then Components(s[1..])
    else [s[..NameLen(s)]] + Components(s[NameLen(s)..])
  }

  /** `split_once('/')` */
  function SplitOnce(s: string): Option<(string, string)> {
    var n := NameLen(s);
    if n < |s| then Some((s[..n], s[n + 1..])) else None
  }

  /** `trim_start_matches('/')` */
  function TrimStart(s: string): (r: string)
    ensures !StartsWithSlash(r) && |r| <= |s|
    ensures StartsWithSlash(s) || r == s
  {
    if StartsWithSlash(s) then TrimStart(s[1..]) else s
  }

  /** `trim_end_matches('/')` */
  function TrimEnd(s: string): (r: string)
    ensures !EndsWithSlash(r) && r <= s
    ensures EndsWithSlash(s) || r == s
  {
    if EndsWithSlash(s) then TrimEnd(s[..|s| - 1]) else s
  }

  /** `rfind('/')`: the position behind the last slash, or 0. */
  function AfterLastSlash(s: string): (n: nat)
    ensures n <= |s| && SLASH !in s[n..]
    ensures n > 0 ==> s[n - 1] == SLASH
  {
    if s == "" then 0
    else if s[|s| - 1] == SLASH then |s|
    else AfterLastSlash(s[..|s| - 1])
  }

  lemma {:induction false} NameLenConcat(a: string, b: string)
    requires SLASH !in a && (b == "" || b[0] == SLASH)
    ensures NameLen(a + b) == |a|
  {
    if a == "" {
      assert a + b == b;
    } else {
      assert (a + b)[1..] == a[1..] + b;
      NameLenConcat(a[1..], b);
    }
  }

  lemma ComponentsOfName(s: string)
    requires IsName(s)
    ensures Components(s) == [s]
  {
    NameLenConcat(s, "");
    assert s + "" == s;
    assert s[..|s|] == s && s[|s|..] == "";
  }

  lemma NameLenJoin(a: string, b: string)
    ensures NameLen(a + [SLASH] + b) == NameLen(a)
  {
    var n := NameLen(a);
    assert a + [SLASH] + b == a[..n] + (a[n..] + [SLASH] + b);
    NameLenConcat(a[..n], a[n..] + [SLASH] + b);
  }

  /** A slash separates components, and nothing else does. */
  lemma {:induction false} ComponentsJoin(a: string, b: string)
    ensures Components(a + [SLASH] + b) == Components(a) + Components(b)
    decreases |a|
  {
    var s := a + [SLASH] + b;
    if a == "" {
      assert s[1..] == b;
    } else if a[0] == SLASH {
      ComponentsJoin(a[1..], b);
      assert s[1..] == a[1..] + [SLASH] + b;
    } else {
      var n := NameLen(a);
      ComponentsJoin(a[n..], b);
      NameLenJoin(a, b);
      assert s[..n] == a[..n];
      assert s[n..] == a[n..] + [SLASH] + b;
      assert [a[..n]] + (Components(a[n..]) + Components(b)) == ([a[..n]] + Components(a[n..])) + Components(b);
    }
  }

  lemma {:induction false} ComponentsTrimStart(s: string)
    ensures Components(TrimStart(s)) == Components(s)
    ensures TrimStart(s) != "" ==> EndsWithSlash(TrimStart(s)) == EndsWithSlash(s)
    ensures TrimStart(s) == "" <==> Components(s) == []
    decreases |s|
  {
    if StartsWithSlash(s) { ComponentsTrimStart(s[1..]); }
  }

  lemma {:induction false} ComponentsTrimEnd(s: string)
    ensures Components(TrimEnd(s)) == Components(s)
    decreases |s|
  {
    if EndsWithSlash(s) {
      var t := s[..|s| - 1];
      ComponentsTrimEnd(t);
      ComponentsJoin(t, "");
      assert s == t + [SLASH] + "";
    }
  }

  lemma {:induction false} AllSlashes(s: string)
    requires TrimStart(s) == ""
    ensures s == "" || EndsWithSlash(s)
    decreases |s|
  {
    if StartsWithSlash(s) { AllSlashes(s[1..]); }
  }

  lemma SuffixSlash(s: string, n: nat)
    requires n < |s| && s[n] == SLASH
    ensures var suffix := s[n + 1..];
            && (TrimStart(suffix) == "" ==> EndsWithSlash(s))
            && (TrimStart(suffix) != "" ==> EndsWithSlash(TrimStart(suffix)) == EndsWithSlash(s))
  {
    var suffix := s[n + 1..];
    ComponentsTrimStart(suffix);
    if TrimStart(suffix) == "" { AllSlashes(suffix); }
  }

  lemma SuffixComponents(s: string)
    requires s != "" && !StartsWithSlash(s) && NameLen(s) < |s|
    ensures Components(s) == [s[..NameLen(s)]] + Components(TrimStart(s[NameLen(s) + 1..]))
  {
    var n := NameLen(s);
    assert s[n..][1..] == s[n + 1..];
    ComponentsTrimStart(s[n + 1..]);
  }

  /** One turn of the resolver's loop takes the first component off a path. */
  lemma FirstComponent(s: string)
    requires s != "" && !StartsWithSlash(s)
    ensures match SplitOnce(s)
            case None => IsName(s) && Components(s) == [s] && !EndsWithSlash(s)
            case Some((prefix, suffix)) =>
              && IsName(prefix)
              && Components(s) == [prefix] + Components(TrimStart(suffix))
              && |TrimStart(suffix)| < |s|
              && (TrimStart(suffix) == "" ==> EndsWithSlash(s))
              && (TrimStart(suffix) != "" ==> EndsWithSlash(TrimStart(suffix)) == EndsWithSlash(s))
  {
    var n := NameLen(s);
    if n < |s| {
      SuffixSlash(s, n);
      SuffixComponents(s);
    } else {
      assert s[..n] == s;
      ComponentsOfName(s);
    }
  }
}
