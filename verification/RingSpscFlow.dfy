/**
  What one side of the shared ring buffer learns of the other: what is published, seen, read and
  released, told by the actions of a run alone.
 */
module RingSpscFlow {
  import opened BitMasks
  import opened RingBuffer
  import opened RingLayout
  import opened RingSpsc
  import opened Sequences

  // ----- The flow of items, from the actions -----

  /** The items of the transfer the producer began last. */
  function Started<T>(actions: seq<Action<T>>, i: nat): seq<T>
    requires i <= |actions|
  {
    if i == 0 then []
    else if actions[i - 1].ProdStart? then actions[i - 1].items
    else Started(actions, i - 1)
  }

  /** All items published by the first `i` actions. */
  function Published<T>(actions: seq<Action<T>>, i: nat): seq<T>
    requires i <= |actions|
  {
    if i == 0 then []
    else Published(actions, i - 1) + if actions[i - 1].ProdPublish? then Started(actions, i - 1) else []
  }

  /** The number of items the consumer last set out to read. */
  function Wanted<T>(actions: seq<Action<T>>, i: nat): nat
    requires i <= |actions|
  {
    if i == 0 then 0
    else if actions[i - 1].ConsStart? then actions[i - 1].n
    else Wanted(actions, i - 1)
  }

  /** All items the consumer has read and released. */
  function Taken<T>(trace: seq<Shared<T>>, actions: seq<Action<T>>, i: nat): seq<T>
    requires i <= |actions| < |trace|
  {
    if i == 0 then []
    else
      var s := trace[i - 1];
      Taken(trace, actions, i - 1) + if actions[i - 1].ConsRelease? && s.cons.CReading? then s.cons.got else []
  }

  ghost predicate FlowOk<T>(trace: seq<Shared<T>>, actions: seq<Action<T>>, i: nat)
    requires i <= |actions| < |trace|
  {
    var s := trace[i];
    && s.produced == Published(actions, i) && s.consumed == Taken(trace, actions, i)
    && (s.prod.PWriting? ==> s.prod.items == Started(actions, i))
    && (s.cons.CReading? ==> s.cons.n == Wanted(actions, i))
    && s.exp == trace[0].exp
  }

  lemma {:induction false} RunFlow<T>(trace: seq<Shared<T>>, actions: seq<Action<T>>, i: nat)
    requires IsRun(trace, actions) && i < |trace|
    ensures FlowOk(trace, actions, i)
    decreases i
  {
    if i > 0 {
      RunFlow(trace, actions, i - 1);
      var s := trace[i - 1];
      assert Enabled(s, actions[i - 1]) && trace[i - 1 + 1] == Do(s, actions[i - 1]);
      assert s.produced + [] == s.produced && s.consumed + [] == s.consumed;
    }
  }

  /**
    First in, first out: in every run what the consumer has released is a prefix of what the
    producer has published, and what it has read beyond that continues the prefix.
   */
  lemma FirstInFirstOut<T>(trace: seq<Shared<T>>, actions: seq<Action<T>>, i: nat)
    requires IsRun(trace, actions) && i < |trace|
    ensures var all, taken := Published(actions, i), Taken(trace, actions, i);
            && taken <= all && |all| - |taken| <= trace[i].Cap()
            && (trace[i].cons.CReading? ==>
                  var got := trace[i].cons.got;
                  && |got| <= Wanted(actions, i) && |taken| + |got| <= |all|
                  && got == all[|taken|..|taken| + |got|])
  {
    RunFlow(trace, actions, i);
    RunInv(trace, actions, i);
  }

  // ----- What the two sides see -----

  lemma {:induction false} TailStays<T>(trace: seq<Shared<T>>, actions: seq<Action<T>>, j: nat, m: nat)
    requires IsRun(trace, actions) && j < m < |trace| && actions[j].ConsLoadTail?
    requires forall x :: j < x < m ==> !actions[x].ConsLoadTail?
    ensures trace[m].cons.CTailLoaded? ==>
              trace[m].cons.tail == |Published(actions, j)| % WORD && trace[m].cons.seen == |Published(actions, j)|
    decreases m
  {
    if m == j + 1 {
      RunFlow(trace, actions, j);
      RunInv(trace, actions, j);
    } else {
      TailStays(trace, actions, j, m - 1);
      assert trace[m - 1 + 1] == Do(trace[m - 1], actions[m - 1]);
    }
  }

  /**
    The length the consumer computes is exact: what was published when it loaded the tail, less
    what it had released when it loaded the head.
   */
  lemma ConsumerLength<T>(trace: seq<Shared<T>>, actions: seq<Action<T>>, j: nat, k: nat)
    requires IsRun(trace, actions) && j < k < |actions| && actions[j].ConsLoadTail? && actions[k].ConsLoadHead?
    requires forall x :: j < x < k ==> !actions[x].ConsLoadTail?
    ensures trace[k + 1].cons.CChecked?
    ensures trace[k + 1].cons.len + |Taken(trace, actions, k)| == |Published(actions, j)|
  {
    assert Enabled(trace[k], actions[k]) && trace[k + 1] == Do(trace[k], actions[k]);
    TailStays(trace, actions, j, k);
    RunFlow(trace, actions, k);
    RunInv(trace, actions, k);
    CapBelowWord(trace[k].exp);
    CounterDifference(|Published(actions, j)|, |trace[k].consumed|);
  }

  /** The free length the producer computes is exact. */
  lemma ProducerFree<T>(trace: seq<Shared<T>>, actions: seq<Action<T>>, k: nat)
    requires IsRun(trace, actions) && k < |actions| && actions[k].ProdLoadHead?
    ensures trace[k + 1].prod.PChecked?
    ensures trace[k + 1].prod.free + |Published(actions, k)| == trace[k].Cap() + |Taken(trace, actions, k)|
  {
    assert Enabled(trace[k], actions[k]) && trace[k + 1] == Do(trace[k], actions[k]);
    RunFlow(trace, actions, k);
    RunInv(trace, actions, k);
    CapBelowWord(trace[k].exp);
    CounterDifference(|trace[k].produced|, |trace[k].consumed|);
  }

  lemma {:induction false} PublishedGrows<T>(actions: seq<Action<T>>, i: nat, j: nat)
    requires i <= j <= |actions|
    ensures Published(actions, i) <= Published(actions, j)
    ensures (forall x :: i <= x < j ==> !actions[x].ProdPublish?) ==> Published(actions, j) == Published(actions, i)
    decreases j
  {
    if i < j { PublishedGrows(actions, i, j - 1); }
  }

  lemma {:induction false} TakenGrows<T>(trace: seq<Shared<T>>, actions: seq<Action<T>>, i: nat, j: nat)
    requires i <= j <= |actions| < |trace|
    ensures Taken(trace, actions, i) <= Taken(trace, actions, j)
    ensures (forall x :: i <= x < j ==> !actions[x].ConsRelease?) ==>
              Taken(trace, actions, j) == Taken(trace, actions, i)
    decreases j
  {
    if i < j { TakenGrows(trace, actions, i, j - 1); }
  }

  /**
    A push is seen: a consumer that loads the tail after `items` were published, and has released
    nothing since, computes a length of at least `|items|`.
   */
  lemma PushIsSeen<T>(trace: seq<Shared<T>>, actions: seq<Action<T>>, i: nat, j: nat, k: nat)
    requires IsRun(trace, actions) && i < j < k < |actions|
    requires actions[i].ProdPublish? && actions[j].ConsLoadTail? && actions[k].ConsLoadHead?
    requires forall x :: j < x < k ==> !actions[x].ConsLoadTail?
    requires forall x :: i <= x < k ==> !actions[x].ConsRelease?
    ensures trace[k + 1].cons.CChecked? && trace[k + 1].cons.len >= |Started(actions, i)|
  {
    ConsumerLength(trace, actions, j, k);
    FirstInFirstOut(trace, actions, i);
    TakenGrows(trace, actions, i, k);
    PublishedGrows(actions, i + 1, j);
  }

  /** A consumer that then reads everything it saw gets exactly those items last. */
  lemma PushIsRead<T>(trace: seq<Shared<T>>, actions: seq<Action<T>>, i: nat, j: nat, m: nat)
    requires IsRun(trace, actions) && i < j < m < |actions|
    requires actions[i].ProdPublish? && actions[j].ConsLoadTail? && actions[m].ConsRelease?
    requires forall x :: i < x < j ==> !actions[x].ProdPublish?
    requires forall x :: i <= x < m ==> !actions[x].ConsRelease?
    requires Wanted(actions, m) + |Taken(trace, actions, m)| == |Published(actions, j)|
    ensures trace[m].cons.CReading?
    ensures var got, items := trace[m].cons.got, Started(actions, i);
            |items| <= |got| && got[|got| - |items|..] == items
  {
    assert Enabled(trace[m], actions[m]);
    RunFlow(trace, actions, m);
    FirstInFirstOut(trace, actions, m);
    FirstInFirstOut(trace, actions, i);
    TakenGrows(trace, actions, i, m);
    PublishedGrows(actions, i + 1, j);
    PublishedGrows(actions, j, m);
    var got, items := trace[m].cons.got, Started(actions, i);
    var front, taken := Published(actions, i), Taken(trace, actions, i);
    assert Published(actions, j) == front + items;
    assert got == (front + items)[|taken|..];
  }

  /** A release is seen: the producer's next load finds at least that many more free slots. */
  lemma PopIsSeen<T>(trace: seq<Shared<T>>, actions: seq<Action<T>>, i: nat, k: nat)
    requires IsRun(trace, actions) && i < k < |actions| && actions[i].ConsRelease? && actions[k].ProdLoadHead?
    requires forall x :: i <= x < k ==> !actions[x].ProdPublish?
    ensures trace[k + 1].prod.PChecked?
    ensures trace[k + 1].prod.free + |Published(actions, i)|
            >= trace[i].Cap() + |Taken(trace, actions, i)| + Wanted(actions, i)
  {
    assert Enabled(trace[i], actions[i]);
    RunFlow(trace, actions, i);
    RunFlow(trace, actions, k);
    ProducerFree(trace, actions, k);
    PublishedGrows(actions, i, k);
    TakenGrows(trace, actions, i + 1, k);
  }

  /** And what is read after a release are later items. */
  lemma NextReadIsLater<T>(trace: seq<Shared<T>>, actions: seq<Action<T>>, i: nat, m: nat)
    requires IsRun(trace, actions) && i < m < |trace| && actions[i].ConsRelease? && trace[m].cons.CReading?
    ensures var from := |Taken(trace, actions, m)|;
            && from >= |Taken(trace, actions, i)| + Wanted(actions, i)
            && from + |trace[m].cons.got| <= |Published(actions, m)|
            && trace[m].cons.got == Published(actions, m)[from..from + |trace[m].cons.got|]
  {
    assert Enabled(trace[i], actions[i]);
    RunFlow(trace, actions, i);
    FirstInFirstOut(trace, actions, m);
    TakenGrows(trace, actions, i + 1, m);
  }

  // ----- One side alone -----

  /** Steps from any state on. */
  ghost predicate AreSteps<T>(trace: seq<Shared<T>>, actions: seq<Action<T>>) {
    && |trace| == |actions| + 1
    && (forall i :: 0 <= i < |actions| ==>
          Enabled(trace[i], actions[i]) && trace[i + 1] == Do(trace[i], actions[i]))
  }

  lemma ExtendSteps<T>(trace: seq<Shared<T>>, actions: seq<Action<T>>, a: Action<T>, s: Shared<T>)
    requires AreSteps(trace, actions) && Enabled(trace[|actions|], a) && s == Do(trace[|actions|], a)
    ensures AreSteps(trace + [s], actions + [a])
  {
    var trace', actions' := trace + [s], actions + [a];
    forall i | 0 <= i < |actions'|
      ensures Enabled(trace'[i], actions'[i]) && trace'[i + 1] == Do(trace'[i], actions'[i])
    {
      if i < |actions| {
        assert actions'[i] == actions[i] && trace'[i] == trace[i] && trace'[i + 1] == trace[i + 1];
      } else {
        assert actions'[i] == a && trace'[i] == trace[|actions|] && trace'[i + 1] == s;
      }
    }
  }

  /** Writes the slots that are left. */
  lemma {:induction false} WriteSlots<T>(trace0: seq<Shared<T>>, actions0: seq<Action<T>>)
    returns (trace: seq<Shared<T>>, actions: seq<Action<T>>)
    requires AreSteps(trace0, actions0) && trace0[|actions0|].prod.PWriting?
    requires trace0[|actions0|].prod.done <= |trace0[|actions0|].prod.items|
    ensures AreSteps(trace, actions) && trace[0] == trace0[0]
    ensures var s, s' := trace0[|actions0|], trace[|actions|];
            s' == s.(mem := s'.mem, prod := s.prod.(done := |s.prod.items|))
    decreases |trace0[|actions0|].prod.items| - trace0[|actions0|].prod.done
  {
    var s := trace0[|actions0|];
    trace, actions := trace0, actions0;
    if s.prod.done < |s.prod.items| {
      var s' := Do(s, ProdWriteSlot);
      ExtendSteps(trace0, actions0, ProdWriteSlot, s');
      trace, actions := WriteSlots(trace0 + [s'], actions0 + [ProdWriteSlot]);
    }
  }

  lemma {:induction false} StepsInv<T>(trace: seq<Shared<T>>, actions: seq<Action<T>>, i: nat)
    requires AreSteps(trace, actions) && i < |trace| && Inv(trace[0])
    ensures Inv(trace[i])
    decreases i
  {
    if i > 0 {
      StepsInv(trace, actions, i - 1);
      ActionInv(trace[i - 1], actions[i - 1]);
    }
  }

  lemma FreeIsExact<T>(s: Shared<T>)
    requires Inv(s) && s.prod.PIdle?
    ensures var free := s.Cap() - (|s.produced| - |s.consumed|);
            free >= 0 && Do(Do(s, ProdLoadTail), ProdLoadHead) == s.(prod := PChecked(free))
  {
    CapBelowWord(s.exp);
    CounterDifference(|s.produced|, |s.consumed|);
  }

  lemma StartPush<T>(s: Shared<T>, items: seq<T>) returns (trace: seq<Shared<T>>, actions: seq<Action<T>>)
    requires Inv(s) && s.prod.PIdle? && |s.produced| - |s.consumed| + |items| <= s.Cap()
    ensures AreSteps(trace, actions) && trace[0] == s
    ensures trace[|actions|] == s.(prod := PWriting(s.tail, items, 0))
  {
    FreeIsExact(s);
    var s1 := Do(s, ProdLoadTail);
    var s2 := Do(s1, ProdLoadHead);
    var s3 := Do(s2, ProdStart(items));
    ExtendSteps([s], [], ProdLoadTail, s1);
    ExtendSteps([s] + [s1], [] + [ProdLoadTail], ProdLoadHead, s2);
    ExtendSteps([s] + [s1] + [s2], [] + [ProdLoadTail] + [ProdLoadHead], ProdStart(items), s3);
    trace, actions := [s] + [s1] + [s2] + [s3], [] + [ProdLoadTail] + [ProdLoadHead] + [ProdStart(items)];
  }

  /** A push that fits succeeds, if only the producer runs. */
  lemma PushSucceeds<T>(s: Shared<T>, items: seq<T>) returns (trace: seq<Shared<T>>, actions: seq<Action<T>>)
    requires Inv(s) && s.prod.PIdle? && |s.produced| - |s.consumed| + |items| <= s.Cap()
    ensures AreSteps(trace, actions) && trace[0] == s
    ensures var s' := trace[|actions|];
            && Inv(s') && s'.produced == s.produced + items && s'.consumed == s.consumed
            && s'.prod.PIdle? && s'.cons == s.cons
  {
    trace, actions := StartPush(s, items);
    trace, actions := WriteSlots(trace, actions);
    var s' := Do(trace[|actions|], ProdPublish);
    ExtendSteps(trace, actions, ProdPublish, s');
    trace, actions := trace + [s'], actions + [ProdPublish];
    StepsInv(trace, actions, |actions|);
  }

  lemma LengthIsExact<T>(s: Shared<T>)
    requires Inv(s) && s.cons.CIdle?
    ensures Do(Do(s, ConsLoadTail), ConsLoadHead) == s.(cons := CChecked(|s.produced| - |s.consumed|))
  {
    CapBelowWord(s.exp);
    CounterDifference(|s.produced|, |s.consumed|);
  }

  lemma StartPop<T>(s: Shared<T>, n: nat) returns (trace: seq<Shared<T>>, actions: seq<Action<T>>)
    requires Inv(s) && s.cons.CIdle? && |s.consumed| + n <= |s.produced|
    ensures AreSteps(trace, actions) && trace[0] == s
    ensures trace[|actions|] == s.(cons := CReading(s.head, n, []))
  {
    LengthIsExact(s);
    var s1 := Do(s, ConsLoadTail);
    var s2 := Do(s1, ConsLoadHead);
    var s3 := Do(s2, ConsStart(n));
    ExtendSteps([s], [], ConsLoadTail, s1);
    ExtendSteps([s] + [s1], [] + [ConsLoadTail], ConsLoadHead, s2);
    ExtendSteps([s] + [s1] + [s2], [] + [ConsLoadTail] + [ConsLoadHead], ConsStart(n), s3);
    trace, actions := [s] + [s1] + [s2] + [s3], [] + [ConsLoadTail] + [ConsLoadHead] + [ConsStart(n)];
  }

  /** Reads the slots that are left. */
  lemma {:induction false} ReadSlots<T>(trace0: seq<Shared<T>>, actions0: seq<Action<T>>)
    returns (trace: seq<Shared<T>>, actions: seq<Action<T>>)
    requires AreSteps(trace0, actions0) && Inv(trace0[0]) && trace0[|actions0|].cons.CReading?
    requires |trace0[|actions0|].cons.got| <= trace0[|actions0|].cons.n
    ensures AreSteps(trace, actions) && trace[0] == trace0[0] && trace[|actions|].cons.CReading?
    ensures var s, s' := trace0[|actions0|], trace[|actions|];
            s' == s.(cons := s.cons.(got := s'.cons.got)) && |s'.cons.got| == s'.cons.n
    decreases trace0[|actions0|].cons.n - |trace0[|actions0|].cons.got|
  {
    var s := trace0[|actions0|];
    trace, actions := trace0, actions0;
    if |s.cons.got| < s.cons.n {
      StepsInv(trace0, actions0, |actions0|);
      ReadSlotInv(s);
      var s' := Do(s, ConsReadSlot);
      ExtendSteps(trace0, actions0, ConsReadSlot, s');
      trace, actions := ReadSlots(trace0 + [s'], actions0 + [ConsReadSlot]);
    }
  }

  /** A pop of items that are there succeeds, if only the consumer runs, and takes the oldest ones. */
  lemma PopSucceeds<T>(s: Shared<T>, n: nat) returns (trace: seq<Shared<T>>, actions: seq<Action<T>>)
    requires Inv(s) && s.cons.CIdle? && |s.consumed| + n <= |s.produced|
    ensures AreSteps(trace, actions) && trace[0] == s
    ensures var s' := trace[|actions|];
            && Inv(s') && s'.produced == s.produced && s'.consumed == s.produced[..|s.consumed| + n]
            && s'.cons.CIdle? && s'.prod == s.prod
  {
    trace, actions := StartPop(s, n);
    trace, actions := ReadSlots(trace, actions);
    var s' := Do(trace[|actions|], ConsRelease);
    ExtendSteps(trace, actions, ConsRelease, s');
    trace, actions := trace + [s'], actions + [ConsRelease];
    StepsInv(trace, actions, |actions|);
  }
}
