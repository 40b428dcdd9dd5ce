/** CPU time of processes and its sum over the unreaped ones. */
module CpuTime {

  /** User and kernel time. */
  datatype Cpu = Cpu(user: nat, kernel: nat) {
    function Plus(other: Cpu): Cpu {
      Cpu(user + other.user, kernel + other.kernel)
    }
  }

  function Zero(): Cpu { Cpu(0, 0) }

  lemma ZeroPlusZero()
    ensures Zero().Plus(Zero()) == Zero()
  {
  }

  type Times = map<nat, Cpu>

  function At(times: Times, p: nat): Cpu {
    if p in times then times[p] else Zero()
  }

  /** Own and reaped-children time of `p`, or nothing once `p` was reaped. */
  function Weight(clock: Times, stats: Times, reaped: set<nat>, p: nat): Cpu {
    if p in reaped then Zero() else At(clock, p).Plus(At(stats, p))
  }

  function Weights(clock: Times, stats: Times, reaped: set<nat>): nat -> Cpu {
    (p: nat) => Weight(clock, stats, reaped, p)
  }

  function Sum(f: nat -> Cpu, n: nat): Cpu {
    if n == 0 then Zero() else Sum(f, n - 1).Plus(f(n - 1))
  }

  lemma {:induction false} SumUnchanged(f: nat -> Cpu, g: nat -> Cpu, n: nat)
    requires forall p: nat :: p < n ==> f(p) == g(p)
    ensures Sum(f, n) == Sum(g, n)
  {
    if n > 0 { SumUnchanged(f, g, n - 1); }
  }

  /** Changing one summand changes the sum by exactly that much. */
  lemma {:induction false} SumPoint(f: nat -> Cpu, g: nat -> Cpu, n: nat, x: nat)
    requires x < n
    requires forall p: nat :: p < n && p != x ==> f(p) == g(p)
    ensures Sum(f, n).Plus(g(x)) == Sum(g, n).Plus(f(x))
  {
    if x == n - 1 {
      SumUnchanged(f, g, n - 1);
    } else {
      SumPoint(f, g, n - 1, x);
    }
  }

  lemma {:induction false} SumGrow(f: nat -> Cpu, m: nat, n: nat)
    requires m <= n
    requires forall p: nat :: m <= p < n ==> f(p) == Zero()
    ensures Sum(f, n) == Sum(f, m)
  {
    if m < n { SumGrow(f, m, n - 1); }
  }

  /** Time of all unreaped processes with a PID below `n`. */
  function TotalTime(clock: Times, stats: Times, reaped: set<nat>, n: nat): Cpu {
    Sum(Weights(clock, stats, reaped), n)
  }

  /** New processes start without any time. */
  lemma TotalTimeGrow(clock: Times, stats: Times, reaped: set<nat>, m: nat, n: nat)
    requires m <= n
    requires forall p: nat :: m <= p < n ==> p !in clock && p !in stats
    ensures TotalTime(clock, stats, reaped, n) == TotalTime(clock, stats, reaped, m)
  {
    SumGrow(Weights(clock, stats, reaped), m, n);
  }

  lemma TotalTimeNewEntry(clock: Times, stats: Times, reaped: set<nat>, c: nat, n: nat)
    requires c !in clock && c !in stats
    ensures TotalTime(clock[c := Zero()], stats[c := Zero()], reaped, n) == TotalTime(clock, stats, reaped, n)
  {
    SumUnchanged(Weights(clock, stats, reaped), Weights(clock[c := Zero()], stats[c := Zero()], reaped), n);
  }

  lemma PlusCancel(a: Cpu, b: Cpu, x: Cpu, d: Cpu)
    requires a.Plus(x.Plus(d)) == b.Plus(x)
    ensures b == a.Plus(d)
  {
  }

  /** A tick of an unreaped process is counted. */
  lemma TickTime(clock: Times, stats: Times, reaped: set<nat>, c: nat, time: Cpu, n: nat)
    requires c in clock && c < n && c !in reaped
    ensures TotalTime(clock[c := clock[c].Plus(time)], stats, reaped, n)
            == TotalTime(clock, stats, reaped, n).Plus(time)
  {
    var clock' := clock[c := clock[c].Plus(time)];
    var f, g := Weights(clock, stats, reaped), Weights(clock', stats, reaped);
    SumPoint(f, g, n, c);
    assert g(c) == f(c).Plus(time);
    PlusCancel(Sum(f, n), Sum(g, n), f(c), time);
  }

  /** A tick of a reaped process is lost. */
  lemma TickTimeLost(clock: Times, stats: Times, reaped: set<nat>, c: nat, time: Cpu, n: nat)
    requires c in clock && c in reaped
    ensures TotalTime(clock[c := clock[c].Plus(time)], stats, reaped, n) == TotalTime(clock, stats, reaped, n)
  {
    SumUnchanged(Weights(clock, stats, reaped), Weights(clock[c := clock[c].Plus(time)], stats, reaped), n);
  }

  /** Reaping `c` moves its whole time to the statistics of the waiter `w`: the total is conserved. */
  lemma ReapConservesTime(clock: Times, stats: Times, reaped: set<nat>, w: nat, c: nat, n: nat)
    requires w < n && c < n && w != c && w !in reaped && c !in reaped
    requires w in stats && c in stats && c in clock
    ensures TotalTime(clock, stats[w := stats[w].Plus(stats[c].Plus(clock[c]))], reaped + {c}, n)
            == TotalTime(clock, stats, reaped, n)
  {
    var stats' := stats[w := stats[w].Plus(stats[c].Plus(clock[c]))];
    var f := Weights(clock, stats, reaped);
    var g := Weights(clock, stats, reaped + {c});
    var h := Weights(clock, stats', reaped + {c});
    SumPoint(f, g, n, c);
    SumPoint(g, h, n, w);
    assert h(w) == g(w).Plus(f(c)) && g(c) == Zero();
  }
}
