/**
  The lock-free ring buffer shared by one producer and one consumer.

  Every load of a counter, every access to a slot and every store of a counter is a step of its
  own; a run interleaves the steps of the two sides in any order.  Atomics are sequentially
  consistent here.
 */
module RingSpsc {
  import opened BitMasks
  import opened RingLayout
  import opened Sequences
  import opened RingBuffer

  /** `push`, `push_slice` and `write_fallible`. */
  datatype Producer<T> =
    | PIdle
    | PTailLoaded(tail: nat)                        // `len`: the tail is loaded, the head not yet
    | PChecked(free: nat)                           // `free_len` is known
    | PWriting(tail: nat, items: seq<T>, done: nat) // `done` slots written

  /** `pop`, `pop_slice` and `read_fallible`; `seen` counts the items published when the tail was loaded. */
  datatype Consumer<T> =
    | CIdle
    | CTailLoaded(tail: nat, seen: nat)
    | CChecked(len: nat)
    | CReading(head: nat, n: nat, got: seq<T>)

  datatype Shared<T> = Shared(
    exp: nat,
    mem: seq<T>,
    head: nat,          // the atomic counters
    tail: nat,
    produced: seq<T>,   // history: all items published
    consumed: seq<T>,   // history: all items taken
    prod: Producer<T>,
    cons: Consumer<T>)
  {
    function Cap(): nat { Pow2(exp) }
  }

  datatype Action<T> =
    | ProdLoadTail
    | ProdLoadHead
    | ProdStart(items: seq<T>)
    | ProdWriteSlot
    | ProdPublish
    | ProdGiveUp
    | ConsLoadTail
    | ConsLoadHead
    | ConsStart(n: nat)
    | ConsReadSlot
    | ConsRelease
    | ConsGiveUp

  ghost predicate Init<T>(s: Shared<T>) {
    && s.exp <= 63 && s.Cap() <= |s.mem|
    && s.head == 0 && s.tail == 0 && s.produced == [] && s.consumed == []
    && s.prod == PIdle && s.cons == CIdle
  }

  /** The physical index of the `k`-th slot of a transfer that starts at counter value `c`. */
  function Index(exp: nat, c: nat, k: nat): nat {
    var offset := BitAnd(c, Pow2(exp) - 1);
    if offset + k < Pow2(exp) then offset + k else offset + k - Pow2(exp)
  }

  predicate Enabled<T>(s: Shared<T>, a: Action<T>) {
    match a
    case ProdLoadTail => s.prod.PIdle?
    case ProdLoadHead => s.prod.PTailLoaded?
    // the transfer is made only if it fits
    case ProdStart(items) => s.prod.PChecked? && |items| <= s.prod.free
    case ProdWriteSlot => s.prod.PWriting? && s.prod.done < |s.prod.items|
    case ProdPublish => s.prod.PWriting? && s.prod.done == |s.prod.items|
    case ProdGiveUp => !s.prod.PIdle?
    case ConsLoadTail => s.cons.CIdle?
    case ConsLoadHead => s.cons.CTailLoaded?
    case ConsStart(n) => s.cons.CChecked? && n <= s.cons.len
    case ConsReadSlot => s.cons.CReading? && |s.cons.got| < s.cons.n
    case ConsRelease => s.cons.CReading? && |s.cons.got| == s.cons.n
    case ConsGiveUp => !s.cons.CIdle?
  }

  function Do<T>(s: Shared<T>, a: Action<T>): Shared<T>
    requires Enabled(s, a)
  {
    match a
    case ProdLoadTail => s.(prod := PTailLoaded(s.tail))
    case ProdLoadHead =>
      var len := WrapSub(s.prod.tail, s.head);
      s.(prod := PChecked(if len <= s.Cap() then s.Cap() - len else 0))
    case ProdStart(items) => s.(prod := PWriting(s.tail, items, 0))
    case ProdWriteSlot =>
      var i := Index(s.exp, s.prod.tail, s.prod.done);
      s.(mem := if i < |s.mem| then s.mem[i := s.prod.items[s.prod.done]] else s.mem,
         prod := s.prod.(done := s.prod.done + 1))
    case ProdPublish =>
      s.(tail := WrapAdd(s.prod.tail, |s.prod.items|), produced := s.produced + s.prod.items, prod := PIdle)
    case ProdGiveUp => s.(prod := PIdle)
    case ConsLoadTail => s.(cons := CTailLoaded(s.tail, |s.produced|))
    case ConsLoadHead => s.(cons := CChecked(WrapSub(s.cons.tail, s.head)))
    case ConsStart(n) => s.(cons := CReading(s.head, n, []))
    case ConsReadSlot =>
      var i := Index(s.exp, s.cons.head, |s.cons.got|);
      s.(cons := if i < |s.mem| then s.cons.(got := s.cons.got + [s.mem[i]]) else s.cons)
    case ConsRelease =>
      s.(head := WrapAdd(s.cons.head, s.cons.n), consumed := s.consumed + s.cons.got, cons := CIdle)
    case ConsGiveUp => s.(cons := CIdle)
  }

  ghost predicate IsRun<T>(trace: seq<Shared<T>>, actions: seq<Action<T>>) {
    && |trace| == |actions| + 1
    && Init(trace[0])
    && (forall i :: 0 <= i < |actions| ==>
          Enabled(trace[i], actions[i]) && trace[i + 1] == Do(trace[i], actions[i]))
  }

  // ----- The invariant -----

  /** The counters are the wrapped item counts, and the unread items are in their slots. */
  ghost predicate QueueOk<T>(s: Shared<T>) {
    && s.exp <= 63 && s.Cap() <= |s.mem|
    && |s.consumed| <= |s.produced| <= |s.consumed| + s.Cap()
    && s.tail == |s.produced| % WORD && s.head == |s.consumed| % WORD
    && s.consumed == s.produced[..|s.consumed|]
    && Stored(s.mem, s.Cap(), |s.consumed|, |s.produced| - |s.consumed|) == s.produced[|s.consumed|..]
  }

  ghost predicate ProdOk<T>(s: Shared<T>)
    requires s.Cap() <= |s.mem|
  {
    match s.prod
    case PIdle => true
    case PTailLoaded(tail) => tail == s.tail
    case PChecked(free) => |s.produced| + free <= |s.consumed| + s.Cap()
    case PWriting(tail, items, done) =>
      && tail == s.tail && done <= |items|
      && |s.produced| + |items| <= |s.consumed| + s.Cap()
      && Stored(s.mem, s.Cap(), |s.produced|, done) == items[..done]
  }

  ghost predicate ConsOk<T>(s: Shared<T>) {
    match s.cons
    case CIdle => true
    case CTailLoaded(tail, seen) => tail == seen % WORD && |s.consumed| <= seen <= |s.produced|
    case CChecked(len) => |s.consumed| + len <= |s.produced|
    case CReading(head, n, got) =>
      && head == s.head && |got| <= n && |s.consumed| + n <= |s.produced|
      && got == s.produced[|s.consumed|..|s.consumed| + |got|]
  }

  ghost predicate Inv<T>(s: Shared<T>) {
    QueueOk(s) && ProdOk(s) && ConsOk(s)
  }

  // ----- Counter arithmetic -----

  lemma DifferenceMod(p: nat, c: nat, w: nat)
    requires w > 0 && c <= p < c + w
    ensures (p % w - c % w) % w == p - c
  {
    assert p == p / w * w + p % w && c == c / w * w + c % w;
    assert (c / w - p / w) * w == c / w * w - p / w * w;
    ModUnique(p % w - c % w, w, c / w - p / w, p - c);
  }

  /** The difference of the wrapped counters is the difference of the counts. */
  lemma CounterDifference(p: nat, c: nat)
    requires c <= p < c + WORD
    ensures WrapSub(p % WORD, c % WORD) == p - c
  {
    DifferenceMod(p, c, WORD);
  }

  lemma AddMod(c: nat, n: nat, w: nat)
    requires w > 0
    ensures (c % w + n) % w == (c + n) % w
  {
    var q, r := (c % w + n) / w, (c % w + n) % w;
    assert c == c / w * w + c % w && c % w + n == q * w + r;
    assert (c / w + q) * w == c / w * w + q * w;
    ModUnique(c + n, w, c / w + q, r);
  }

  lemma CountAdd(c: nat, n: nat)
    ensures WrapAdd(c % WORD, n) == (c + n) % WORD
  {
    AddMod(c, n, WORD);
  }

  /** The masked index of a transfer is the slot of the unwrapped position. */
  lemma IndexIsSlot(exp: nat, count: nat, k: nat)
    requires exp <= 63 && k < Pow2(exp)
    ensures Index(exp, count % WORD, k) == Slot(count, k, Pow2(exp))
  {
    MaskIsMod(count % WORD, exp);
    WrappedSlot(count, exp);
    SlotStep(count, k, Pow2(exp));
  }

  lemma CapBelowWord(exp: nat)
    requires exp <= 63
    ensures 2 * Pow2(exp) <= WORD
  {
    Pow2Monotone(exp, 63);
  }

  // ----- Slots -----

  lemma StoredConcat<T>(mem: seq<T>, cap: nat, start: nat, a: nat, b: nat)
    requires 0 < cap <= |mem|
    ensures Stored(mem, cap, start, a + b) == Stored(mem, cap, start, a) + Stored(mem, cap, start + a, b)
  {
    StoredDrop(mem, cap, start, a + b, a);
    assert Stored(mem, cap, start, a + b) == Stored(mem, cap, start, a + b)[..a] + Stored(mem, cap, start, a + b)[a..];
  }

  /** A slot less than one turn ahead of the unread items, and behind all written ones, belongs to none of them. */
  lemma WriteAhead<T>(mem: seq<T>, cap: nat, start: nat, n: nat, x: T)
    requires 0 < cap <= |mem| && n < cap
    ensures Stored(mem[Slot(start, n, cap) := x], cap, start, n) == Stored(mem, cap, start, n)
    ensures Stored(mem[Slot(start, n, cap) := x], cap, start, n + 1) == Stored(mem, cap, start, n) + [x]
  {
    forall i | 0 <= i < n ensures Slot(start, i, cap) != Slot(start, n, cap) {
      ModDistinct(start, i, n, cap);
    }
  }

  // ----- Each step preserves the invariant -----

  /** Writing the next slot of a transfer behind `unread` items. */
  lemma WriteSlotMem<T>(mem: seq<T>, cap: nat, c: nat, unread: nat, done: nat, x: T)
    requires 0 < cap <= |mem| && unread + done < cap
    ensures var mem' := mem[Slot(c + unread, done, cap) := x];
            && Stored(mem', cap, c, unread) == Stored(mem, cap, c, unread)
            && Stored(mem', cap, c + unread, done + 1) == Stored(mem, cap, c + unread, done) + [x]
  {
    var mem' := mem[Slot(c + unread, done, cap) := x];
    assert Slot(c + unread, done, cap) == Slot(c, unread + done, cap);
    WriteAhead(mem, cap, c, unread + done, x);
    StoredConcat(mem, cap, c, unread, done);
    StoredConcat(mem', cap, c, unread, done + 1);
    SplitEqual(Stored(mem', cap, c, unread), Stored(mem', cap, c + unread, done + 1),
               Stored(mem, cap, c, unread), Stored(mem, cap, c + unread, done) + [x]);
  }

  lemma WriteSlotInv<T>(s: Shared<T>)
    requires Inv(s) && Enabled(s, ProdWriteSlot)
    ensures Index(s.exp, s.prod.tail, s.prod.done) < s.Cap()
    ensures Inv(Do(s, ProdWriteSlot))
  {
    var p, c, items, done := |s.produced|, |s.consumed|, s.prod.items, s.prod.done;
    IndexIsSlot(s.exp, p, done);
    WriteSlotMem(s.mem, s.Cap(), c, p - c, done, items[done]);
    TakeSnoc(items, done);
  }

  lemma PublishInv<T>(s: Shared<T>)
    requires Inv(s) && Enabled(s, ProdPublish)
    ensures Inv(Do(s, ProdPublish))
  {
    var p, c, cap := |s.produced|, |s.consumed|, s.Cap();
    var items := s.prod.items;
    CountAdd(p, |items|);
    StoredConcat(s.mem, cap, c, p - c, |items|);
    assert items[..|items|] == items;
    var s' := Do(s, ProdPublish);
    assert s'.produced[c..] == s.produced[c..] + items;
    assert s'.produced[..c] == s.produced[..c];
    if s.cons.CReading? {
      var got := s.cons.got;
      assert s'.produced[c..c + |got|] == s.produced[c..c + |got|];
    }
  }

  lemma ReadSlotInv<T>(s: Shared<T>)
    requires Inv(s) && Enabled(s, ConsReadSlot)
    ensures Index(s.exp, s.cons.head, |s.cons.got|) < s.Cap()
    ensures Inv(Do(s, ConsReadSlot))
  {
    var p, c, cap := |s.produced|, |s.consumed|, s.Cap();
    var k := |s.cons.got|;
    IndexIsSlot(s.exp, c, k);
    assert Stored(s.mem, cap, c, p - c)[k] == s.produced[c..][k];
    assert s.produced[c..c + k + 1] == s.produced[c..c + k] + [s.produced[c + k]];
  }

  lemma ReleaseInv<T>(s: Shared<T>)
    requires Inv(s) && Enabled(s, ConsRelease)
    ensures Inv(Do(s, ConsRelease))
  {
    var p, c, cap, n := |s.produced|, |s.consumed|, s.Cap(), s.cons.n;
    CountAdd(c, n);
    StoredDrop(s.mem, cap, c, p - c, n);
    assert s.produced[..c] + s.produced[c..c + n] == s.produced[..c + n];
    assert s.produced[c..][n..] == s.produced[c + n..];
  }

  /** No step overruns the buffer; the length a side computes never exceeds the capacity. */
  ghost predicate NoUnderflow<T>(s: Shared<T>, a: Action<T>)
    requires Enabled(s, a)
  {
    match a
    case ProdLoadHead => WrapSub(s.prod.tail, s.head) <= s.Cap()
    case ConsLoadHead => WrapSub(s.cons.tail, s.head) <= s.Cap()
    case _ => true
  }

  lemma LoadHeadInv<T>(s: Shared<T>, a: Action<T>)
    requires Inv(s) && Enabled(s, a) && (a.ProdLoadHead? || a.ConsLoadHead?)
    ensures NoUnderflow(s, a) && Inv(Do(s, a))
  {
    var p, c := |s.produced|, |s.consumed|;
    CapBelowWord(s.exp);
    CounterDifference(if a.ProdLoadHead? then p else s.cons.seen, c);
  }

  lemma ActionInv<T>(s: Shared<T>, a: Action<T>)
    requires Inv(s) && Enabled(s, a)
    ensures NoUnderflow(s, a) && Inv(Do(s, a))
  {
    match a
    case ProdLoadHead => LoadHeadInv(s, a);
    case ConsLoadHead => LoadHeadInv(s, a);
    case ProdWriteSlot => WriteSlotInv(s);
    case ProdPublish => PublishInv(s);
    case ConsReadSlot => ReadSlotInv(s);
    case ConsRelease => ReleaseInv(s);
    case _ =>
  }

  lemma {:induction false} RunInv<T>(trace: seq<Shared<T>>, actions: seq<Action<T>>, i: nat)
    requires IsRun(trace, actions) && i < |trace|
    ensures Inv(trace[i])
    decreases i
  {
    if i > 0 {
      RunInv(trace, actions, i - 1);
      ActionInv(trace[i - 1], actions[i - 1]);
    } else {
      assert 0 % WORD == 0;
    }
  }

  // ----- What holds over every run -----

  /** The slot the producer is about to write holds no unread item, in particular not the one the consumer reads. */
  ghost predicate NoRace<T>(s: Shared<T>) {
    s.prod.PWriting? && s.prod.done < |s.prod.items| ==>
      var w := Index(s.exp, s.prod.tail, s.prod.done);
      && w < s.Cap()
      && (forall j :: 0 <= j < |s.produced| - |s.consumed| ==> Slot(|s.consumed|, j, s.Cap()) != w)
      && (s.cons.CReading? && |s.cons.got| < s.cons.n ==> Index(s.exp, s.cons.head, |s.cons.got|) != w)
  }

  lemma InvNoRace<T>(s: Shared<T>)
    requires Inv(s)
    ensures |s.consumed| <= |s.produced| && NoRace(s)
  {
    if s.prod.PWriting? && s.prod.done < |s.prod.items| {
      var p, c, cap := |s.produced|, |s.consumed|, s.Cap();
      var k := p - c + s.prod.done;
      IndexIsSlot(s.exp, p, s.prod.done);
      assert Slot(p, s.prod.done, cap) == Slot(c, k, cap);
      forall j | 0 <= j < p - c ensures Slot(c, j, cap) != Slot(c, k, cap) {
        ModDistinct(c, j, k, cap);
      }
      if s.cons.CReading? && |s.cons.got| < s.cons.n {
        IndexIsSlot(s.exp, c, |s.cons.got|);
      }
    }
  }

  /**
    In every interleaving, at every moment: what the consumer has taken is a prefix of what the
    producer has published, at most the capacity is outstanding, the producer never writes an
    unread slot, and neither `len` exceeds the capacity although it loads the two counters at
    different moments, across any number of wrap-arounds.
   */
  lemma SpscSafety<T>(trace: seq<Shared<T>>, actions: seq<Action<T>>, i: nat)
    requires IsRun(trace, actions) && i < |trace|
    ensures trace[i].consumed <= trace[i].produced
    ensures |trace[i].produced| - |trace[i].consumed| <= trace[i].Cap()
    ensures NoRace(trace[i])
    ensures i < |actions| ==> NoUnderflow(trace[i], actions[i])
  {
    RunInv(trace, actions, i);
    InvNoRace(trace[i]);
    if i < |actions| { ActionInv(trace[i], actions[i]); }
  }
}
