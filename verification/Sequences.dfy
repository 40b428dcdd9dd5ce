/** Facts about sequences that the solver needs spelled out. */
module Sequences {
  lemma Assoc<T>(a: seq<T>, b: seq<T>, c: seq<T>)
    ensures (a + b) + c == a + (b + c)
  {
  }

  lemma TakeSnoc<T>(items: seq<T>, n: nat)
    requires n < |items|
    ensures items[..n + 1] == items[..n] + [items[n]]
  {
  }

  lemma HeadOfConcat<T>(a: seq<T>, b: seq<T>)
    requires a != []
    ensures (a + b)[0] == a[0] && (a + b)[1..] == a[1..] + b
  {
  }

  lemma HeadTail<T>(a: seq<T>, b: seq<T>)
    requires |a| > 0 && |b| > 0 && a[0] == b[0] && a[1..] == b[1..]
    ensures a == b
  {
    assert a == [a[0]] + a[1..] && b == [b[0]] + b[1..];
  }

  lemma DropBoth<T>(v: seq<T>, w: seq<T>, k: nat, m: nat)
    requires k <= |v| && m <= |w| && (k < |v| ==> m == 0)
    ensures (v + w)[k + m..] == v[k..] + w[m..]
  {
  }

  lemma SplitEqual<T>(a: seq<T>, b: seq<T>, c: seq<T>, d: seq<T>)
    requires |a| == |c| && a + b == c + d
    ensures a == c && b == d
  {
    assert a == (a + b)[..|a|] && c == (c + d)[..|c|];
    assert b == (a + b)[|a|..] && d == (c + d)[|c|..];
  }

  lemma SuffixStep<T>(now: seq<T>, cs: seq<T>, i: nat, x: T)
    requires i < |now| == |cs| && now[i..] == cs[i..]
    ensures now[i := x][i + 1..] == cs[i + 1..]
  {
    assert now[i := x][i + 1..] == now[i..][1..] == cs[i..][1..] == cs[i + 1..];
  }
}
