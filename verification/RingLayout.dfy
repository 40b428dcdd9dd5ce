/** Items on a ring of `cap` slots, addressed by free-running positions. */
module RingLayout {
  import opened BitMasks
  import opened UserBuffers

  /** The slot `i` steps after position `start`. */
  function Slot(start: nat, i: nat, cap: nat): (s: nat)
    requires cap > 0
    ensures s < cap
  {
    (start + i) % cap
  }

  lemma SlotStep(start: nat, i: nat, cap: nat)
    requires i < cap
    ensures Slot(start, i, cap) == if start % cap + i < cap then start % cap + i else start % cap + i - cap
  {
    ModStep(start, i, cap);
  }

  /** `i` steps after `start` is `i - n` steps after `start + n`, going round once if need be. */
  lemma SlotShift(start: nat, n: nat, i: nat, cap: nat)
    requires n <= cap && i < cap
    ensures Slot(start, i, cap) == Slot(start + n, if i >= n then i - n else cap - n + i, cap)
  {
    ModTurn(start + i, cap);
  }

  /** The `n` items from position `start` on. */
  function Stored<T>(mem: seq<T>, cap: nat, start: nat, n: nat): (s: seq<T>)
    requires 0 < cap <= |mem|
    ensures |s| == n
    ensures forall i :: 0 <= i < n ==> s[i] == mem[Slot(start, i, cap)]
  {
    seq(n, i requires 0 <= i < n => mem[Slot(start, i, cap)])
  }

  /** `mem` after `items` were written from slot `offset` on, in two parts if they cross the end. */
  function StoreParts<T>(mem: seq<T>, cap: nat, offset: nat, items: seq<T>): (m: seq<T>)
    requires offset < cap <= |mem| && |items| <= cap
    ensures |m| == |mem|
  {
    if offset + |items| <= cap then Patch(mem, offset, items)
    else Patch(Patch(mem, offset, items[..cap - offset]), 0, items[cap - offset..])
  }

  /** `mem` after `items` were written from position `start` on. */
  function Store<T>(mem: seq<T>, cap: nat, start: nat, items: seq<T>): (m: seq<T>)
    requires 0 < cap <= |mem| && |items| <= cap
    ensures |m| == |mem|
  {
    StoreParts(mem, cap, start % cap, items)
  }

  lemma StoreSingle<T>(mem: seq<T>, cap: nat, pos: nat, x: T)
    requires 0 < cap <= |mem|
    ensures mem[pos % cap := x] == Store(mem, cap, pos, [x])
  {
    assert mem[pos % cap := x] == Patch(mem, pos % cap, [x]);
  }

  /** Slot by slot: the written positions hold the items, all other positions keep theirs. */
  lemma StoreAt<T>(mem: seq<T>, cap: nat, start: nat, items: seq<T>, j: nat)
    requires 0 < cap <= |mem| && |items| <= cap && j < cap
    ensures Store(mem, cap, start, items)[Slot(start, j, cap)]
            == if j < |items| then items[j] else mem[Slot(start, j, cap)]
  {
    SlotStep(start, j, cap);
    var offset, s := start % cap, Slot(start, j, cap);
    assert Store(mem, cap, start, items) == StoreParts(mem, cap, offset, items);
    if offset + |items| <= cap {
      PatchAt(mem, offset, items, s);
    } else {
      var part := cap - offset;
      PatchAt(mem, offset, items[..part], s);
      PatchAt(Patch(mem, offset, items[..part]), 0, items[part..], s);
    }
  }

  /** Writing into the free slots appends to the stored items. */
  lemma StoreAppends<T>(mem: seq<T>, cap: nat, head: nat, n: nat, items: seq<T>)
    requires 0 < cap <= |mem| && n + |items| <= cap
    ensures Stored(Store(mem, cap, head + n, items), cap, head, n + |items|) == Stored(mem, cap, head, n) + items
  {
    var mem' := Store(mem, cap, head + n, items);
    forall i | 0 <= i < n + |items|
      ensures mem'[Slot(head, i, cap)] == if i < n then mem[Slot(head, i, cap)] else items[i - n]
    {
      SlotShift(head, n, i, cap);
      StoreAt(mem, cap, head + n, items, if i >= n then i - n else cap - n + i);
    }
  }

  /** `mem'` differs from `mem` at most in the `free` slots from position `start` on. */
  ghost predicate OnlyWithin<T>(mem: seq<T>, mem': seq<T>, cap: nat, start: nat, free: nat)
    requires 0 < cap <= |mem| == |mem'|
  {
    forall j :: free <= j < cap ==> mem'[Slot(start, j, cap)] == mem[Slot(start, j, cap)]
  }

  /** A change confined to the free slots leaves the stored items alone. */
  lemma FreeSlotsOnly<T>(mem: seq<T>, mem': seq<T>, cap: nat, head: nat, n: nat, free: nat)
    requires 0 < cap <= |mem| == |mem'| && n + free <= cap
    requires OnlyWithin(mem, mem', cap, head + n, free)
    ensures Stored(mem', cap, head, n) == Stored(mem, cap, head, n)
  {
    forall i | 0 <= i < n ensures mem'[Slot(head, i, cap)] == mem[Slot(head, i, cap)] {
      SlotShift(head, n, i, cap);
    }
  }

  /** The stored items, read in two parts if they cross the end. */
  lemma StoredParts<T>(mem: seq<T>, cap: nat, start: nat, n: nat)
    requires 0 < cap <= |mem| && n <= cap
    ensures var offset := start % cap;
            Stored(mem, cap, start, n) ==
              if offset + n <= cap then mem[offset..offset + n]
              else mem[offset..cap] + mem[..offset + n - cap]
  {
    var offset := start % cap;
    forall i | 0 <= i < n
      ensures Slot(start, i, cap) == if offset + i < cap then offset + i else offset + i - cap
    {
      SlotStep(start, i, cap);
    }
  }

  lemma StoredDrop<T>(mem: seq<T>, cap: nat, start: nat, n: nat, k: nat)
    requires 0 < cap <= |mem| && k <= n
    ensures Stored(mem, cap, start + k, n - k) == Stored(mem, cap, start, n)[k..]
    ensures Stored(mem, cap, start, k) == Stored(mem, cap, start, n)[..k]
  {
    forall i | 0 <= i < n - k
      ensures Stored(mem, cap, start + k, n - k)[i] == Stored(mem, cap, start, n)[k..][i]
    {
      assert Slot(start + k, i, cap) == Slot(start, k + i, cap);
    }
  }

  /** Only the slot of a position counts. */
  lemma StoredSlot<T>(mem: seq<T>, cap: nat, a: nat, b: nat, n: nat)
    requires 0 < cap <= |mem| && n <= cap && a % cap == b % cap
    ensures Stored(mem, cap, a, n) == Stored(mem, cap, b, n)
  {
    forall i | 0 <= i < n ensures Slot(a, i, cap) == Slot(b, i, cap) {
      SlotStep(a, i, cap);
      SlotStep(b, i, cap);
    }
  }
}
