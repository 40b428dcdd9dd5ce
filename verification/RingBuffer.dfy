/**
  The ring buffer as one owner uses it: free-running `usize` counters that wrap, a power-of-two
  capacity, and copies in two parts across the physical end.  It implements a plain queue.
 */
module RingBuffer {
  import opened BitMasks
  import opened RingLayout
  import opened UserBuffers
  import opened Wrappers

  /** `usize` arithmetic wraps at this value. */
  const WORD: nat := Pow2(64)

  function WrapAdd(a: nat, b: nat): nat { (a + b) % WORD }

  function WrapSub(a: nat, b: nat): nat { (a - b) % WORD }

  lemma SubOfAdd(tail: nat, head: nat, n: nat, w: nat)
    requires w > 0 && (tail - head) % w + n < w
    ensures ((tail + n) % w - head) % w == (tail - head) % w + n
  {
    var len, sum := (tail - head) % w, (tail + n) % w;
    var t, l := (tail + n) / w, (tail - head) / w;
    assert tail + n == t * w + sum && tail - head == l * w + len;
    assert (l - t) * w == l * w - t * w;
    ModUnique(sum - head, w, l - t, len + n);
  }

  lemma SubByAdd(tail: nat, head: nat, n: nat, w: nat)
    requires w > 0 && n <= (tail - head) % w
    ensures (tail - (head + n) % w) % w == (tail - head) % w - n
  {
    var len, sum := (tail - head) % w, (head + n) % w;
    var h, l := (head + n) / w, (tail - head) / w;
    assert head + n == h * w + sum && tail - head == l * w + len;
    assert (l + h) * w == l * w + h * w;
    ModUnique(tail - sum, w, l + h, len - n);
  }

  /** Advancing the tail by `n` makes the buffer longer by `n`; advancing the head makes it shorter. */
  lemma CountersAdvance(head: nat, tail: nat, n: nat)
    requires head < WORD && tail < WORD
    ensures WrapSub(tail, head) + n < WORD ==> WrapSub(WrapAdd(tail, n), head) == WrapSub(tail, head) + n
    ensures n <= WrapSub(tail, head) ==> WrapSub(tail, WrapAdd(head, n)) == WrapSub(tail, head) - n
  {
    if WrapSub(tail, head) + n < WORD { SubOfAdd(tail, head, n, WORD); }
    if n <= WrapSub(tail, head) { SubByAdd(tail, head, n, WORD); }
  }

  /** Masking the wrapped tail gives the slot `len` steps after the head. */
  lemma TailSlot(head: nat, tail: nat, exp: nat)
    requires head < WORD && tail < WORD && exp <= 63
    ensures BitAnd(tail, Pow2(exp) - 1) == (head + WrapSub(tail, head)) % Pow2(exp)
  {
    var len := WrapSub(tail, head);
    var l := (tail - head) / WORD;
    assert head + len == (0 - l) * WORD + tail;
    ModUnique(head + len, WORD, 0 - l, tail);
    ModMod(head + len, exp, 64);
    MaskIsMod(tail, exp);
  }

  lemma WrappedSlot(a: nat, exp: nat)
    requires exp <= 63
    ensures a % WORD % Pow2(exp) == a % Pow2(exp)
  {
    ModMod(a, exp, 64);
  }

  /** Copying at most `free` cells of `rs` to the slots from position `pos` on. */
  ghost predicate FillOutcome<T>(rs: seq<seq<Option<T>>>, free: nat, cap: nat, pos: nat, mem: seq<T>,
                                 r: Result<nat, Errno>, rs': seq<seq<Option<T>>>, mem': seq<T>)
    requires 0 < cap <= |mem| && free <= cap
  {
    var all := Concat(rs);
    var n := Min(|all|, free);
    if Readable(all[..n]) then
      r == Ok(n) && mem' == Store(mem, cap, pos, Values(all[..n])) && rs' == Advance(rs, n)
    else
      r == Err(EFAULT) && |mem'| == |mem| && OnlyWithin(mem, mem', cap, pos, free)
  }

  /** The outcome, told apart by the result. */
  lemma FillMeans<T>(rs: seq<seq<Option<T>>>, free: nat, cap: nat, pos: nat, mem: seq<T>,
                     r: Result<nat, Errno>, rs': seq<seq<Option<T>>>, mem': seq<T>)
    requires 0 < cap <= |mem| && free <= cap && FillOutcome(rs, free, cap, pos, mem, r, rs', mem')
    ensures r.Ok? ==> && r.value == Min(|Concat(rs)|, free) && Readable(Concat(rs)[..r.value])
                      && mem' == Store(mem, cap, pos, Values(Concat(rs)[..r.value])) && rs' == Advance(rs, r.value)
    ensures r.Err? ==> && r == Err(EFAULT) && !Readable(Concat(rs)[..Min(|Concat(rs)|, free)])
                       && |mem'| == |mem| && OnlyWithin(mem, mem', cap, pos, free)
  {
  }

  /** Memory outside the two parts is memory outside the slots from `pos` on. */
  lemma OutsideParts<T>(mem: seq<T>, mem': seq<T>, cap: nat, pos: nat, free: nat)
    requires 0 < cap <= |mem| == |mem'| && free <= cap
    requires var offset := pos % cap;
             if offset + free <= cap then
               mem'[..offset] == mem[..offset] && mem'[offset + free..] == mem[offset + free..]
             else
               mem'[offset + free - cap..offset] == mem[offset + free - cap..offset]
    ensures OnlyWithin(mem, mem', cap, pos, free)
  {
    var offset := pos % cap;
    forall j | free <= j < cap ensures mem'[Slot(pos, j, cap)] == mem[Slot(pos, j, cap)] {
      SlotStep(pos, j, cap);
      var s := Slot(pos, j, cap);
      if offset + free > cap {
        var lo := offset + free - cap;
        assert mem'[lo..offset][s - lo] == mem[lo..offset][s - lo];
      } else if s >= offset + free {
        assert mem'[offset + free..][s - (offset + free)] == mem[offset + free..][s - (offset + free)];
      } else {
        assert mem'[..offset][s] == mem[..offset][s];
      }
    }
  }

  lemma FillOne<T>(rs: seq<seq<Option<T>>>, free: nat, cap: nat, pos: nat, offset: nat, mem: seq<T>,
                   r: Result<nat, Errno>, rs': seq<seq<Option<T>>>, mem': seq<T>)
    requires 0 < cap <= |mem| && offset == pos % cap && offset + free <= cap
    requires ReadOutcome(rs, free, offset, mem, r, rs', mem')
    ensures FillOutcome(rs, free, cap, pos, mem, r, rs', mem')
  {
    var n := Min(|Concat(rs)|, free);
    if !Readable(Concat(rs)[..n]) {
      OutsideParts(mem, mem', cap, pos, free);
    }
  }

  /** A fault in the first of two parts. */
  lemma FillFault1<T>(rs: seq<seq<Option<T>>>, free: nat, cap: nat, pos: nat, offset: nat, part: nat, mem: seq<T>,
                      r1: Result<nat, Errno>, rs1: seq<seq<Option<T>>>, mem1: seq<T>)
    requires 0 < cap <= |mem| && free <= cap && offset == pos % cap && part == cap - offset < free && r1.Err?
    requires ReadOutcome(rs, part, offset, mem, r1, rs1, mem1)
    ensures FillOutcome(rs, free, cap, pos, mem, r1, rs1, mem1)
  {
    var all := Concat(rs);
    var n1, n := Min(|all|, part), Min(|all|, free);
    assert all[..n][..n1] == all[..n1];
    assert !Readable(all[..n]);
    OutsideParts(mem, mem1, cap, pos, free);
  }

  /** Two patches, the second one only when the first reaches the end of the ring. */
  lemma StoreTwo<T>(mem: seq<T>, cap: nat, pos: nat, v: seq<T>, w: seq<T>)
    requires 0 < cap <= |mem| && |v| + |w| <= cap && pos % cap + |v| <= cap
    requires w != [] ==> pos % cap + |v| == cap
    ensures Patch(Patch(mem, pos % cap, v), 0, w) == Store(mem, cap, pos, v + w)
  {
    if w == [] {
      PatchNothing(Patch(mem, pos % cap, v), 0);
      assert v + w == v;
    } else {
      assert (v + w)[..|v|] == v && (v + w)[|v|..] == w;
    }
  }

  /** Two successful parts make one successful copy. */
  lemma FillParts<T>(all: seq<Option<T>>, free: nat, cap: nat, pos: nat, offset: nat, part: nat, mem: seq<T>,
                     n1: nat, n2: nat)
    requires 0 < cap <= |mem| && free <= cap && offset == pos % cap && part == cap - offset < free
    requires n1 == Min(|all|, part) && n2 == Min(|all| - n1, free - part)
    requires Readable(all[..n1]) && Readable(all[n1..][..n2])
    ensures n1 + n2 == Min(|all|, free) && Readable(all[..n1 + n2])
    ensures Patch(Patch(mem, offset, Values(all[..n1])), 0, Values(all[n1..][..n2]))
            == Store(mem, cap, pos, Values(all[..n1 + n2]))
  {
    assert all[..n1 + n2] == all[..n1] + all[n1..][..n2];
    ValuesConcat(all[..n1], all[n1..][..n2]);
    StoreTwo(mem, cap, pos, Values(all[..n1]), Values(all[n1..][..n2]));
  }

  lemma FillBoth<T>(rs: seq<seq<Option<T>>>, free: nat, cap: nat, pos: nat, offset: nat, part: nat, mem: seq<T>,
                    n1: nat, n2: nat, rs2: seq<seq<Option<T>>>, mem2: seq<T>)
    requires 0 < cap <= |mem| && free <= cap && offset == pos % cap && part == cap - offset < free
    requires n1 == Min(|Concat(rs)|, part) && n2 == Min(|Concat(rs)| - n1, free - part)
    requires Readable(Concat(rs)[..n1]) && Readable(Concat(rs)[n1..][..n2])
    requires rs2 == Advance(Advance(rs, n1), n2)
    requires mem2 == Patch(Patch(mem, offset, Values(Concat(rs)[..n1])), 0, Values(Concat(rs)[n1..][..n2]))
    ensures FillOutcome(rs, free, cap, pos, mem, Ok(n1 + n2), rs2, mem2)
  {
    FillParts(Concat(rs), free, cap, pos, offset, part, mem, n1, n2);
    AdvanceAdvance(rs, n1, n2);
  }

  /** The second of two parts succeeds after the first one did. */
  lemma FillTwo<T>(rs: seq<seq<Option<T>>>, free: nat, cap: nat, pos: nat, offset: nat, part: nat, mem: seq<T>,
                   r1: Result<nat, Errno>, rs1: seq<seq<Option<T>>>, mem1: seq<T>,
                   r2: Result<nat, Errno>, rs2: seq<seq<Option<T>>>, mem2: seq<T>)
    requires 0 < cap <= |mem| == |mem1| && free <= cap && offset == pos % cap && part == cap - offset < free
    requires r1.Ok? && r2.Ok?
    requires ReadOutcome(rs, part, offset, mem, r1, rs1, mem1)
    requires ReadOutcome(rs1, free - part, 0, mem1, r2, rs2, mem2)
    ensures FillOutcome(rs, free, cap, pos, mem, Ok(r1.value + r2.value), rs2, mem2)
  {
    AdvanceConcat(rs, r1.value);
    FillBoth(rs, free, cap, pos, offset, part, mem, r1.value, r2.value, rs2, mem2);
  }

  lemma FaultAfter<T>(all: seq<Option<T>>, n1: nat, n2: nat)
    requires n1 + n2 <= |all| && !Readable(all[n1..][..n2])
    ensures !Readable(all[..n1 + n2])
  {
    assert all[..n1 + n2][n1..] == all[n1..][..n2];
  }

  /** What lies between the two parts is untouched. */
  lemma PatchOutside<T>(mem: seq<T>, offset: nat, v: seq<T>, mem1: seq<T>, mem2: seq<T>, lo: nat)
    requires lo <= offset && offset + |v| <= |mem|
    requires mem1 == Patch(mem, offset, v) && |mem2| == |mem1| && mem2[lo..] == mem1[lo..]
    ensures mem2[lo..offset] == mem[lo..offset]
  {
    assert mem2[lo..offset] == mem2[lo..][..offset - lo];
    assert mem1[lo..offset] == mem1[lo..][..offset - lo];
  }

  /** A fault in the second of two parts. */
  lemma FillFault2<T>(rs: seq<seq<Option<T>>>, free: nat, cap: nat, pos: nat, offset: nat, part: nat, mem: seq<T>,
                      r1: Result<nat, Errno>, rs1: seq<seq<Option<T>>>, mem1: seq<T>,
                      r2: Result<nat, Errno>, rs2: seq<seq<Option<T>>>, mem2: seq<T>)
    requires 0 < cap <= |mem| == |mem1| && free <= cap && offset == pos % cap && part == cap - offset < free
    requires r1.Ok? && r2.Err?
    requires ReadOutcome(rs, part, offset, mem, r1, rs1, mem1)
    requires ReadOutcome(rs1, free - part, 0, mem1, r2, rs2, mem2)
    ensures FillOutcome(rs, free, cap, pos, mem, r2, rs2, mem2)
  {
    var n1 := r1.value;
    AdvanceConcat(rs, n1);
    FaultAfter(Concat(rs), n1, Min(|Concat(rs)| - n1, free - part));
    PatchOutside(mem, offset, Values(Concat(rs)[..n1]), mem1, mem2, free - part);
    OutsideParts(mem, mem2, cap, pos, free);
  }

  /** A fault while delivering the first of two parts. */
  lemma DrainFault1<T>(ws: seq<Writer<T>>, items: seq<T>, part: nat, ws1: seq<Writer<T>>)
    requires part <= |items| && WriteOutcome(ws, items[..part], Err(EFAULT), ws1)
    ensures WriteOutcome(ws, items, Err(EFAULT), ws1)
  {
    var n1, n := Min(|Rooms(ws)|, part), Min(|Rooms(ws)|, |items|);
    assert Rooms(ws)[..n][..n1] == Rooms(ws)[..n1];
  }

  /** What is left of the room after the first of two parts. */
  lemma DrainRoom<T>(ws: seq<Writer<T>>, v: seq<T>)
    requires |v| <= |Rooms(ws)|
    ensures Rooms(Deliver(ws, v)) == Rooms(ws)[|v|..]
  {
    DeliverInOrder(ws, v);
  }

  lemma RoomParts(room: seq<bool>, n1: nat, n2: nat)
    requires n1 + n2 <= |room|
    ensures Writable(room[..n1 + n2]) <==> Writable(room[..n1]) && Writable(room[n1..][..n2])
  {
    assert room[..n1 + n2] == room[..n1] + room[n1..][..n2];
    assert room[..n1 + n2][..n1] == room[..n1];
    assert room[..n1 + n2][n1..] == room[n1..][..n2];
  }

  lemma DrainItems<T>(items: seq<T>, part: nat, n1: nat, n2: nat)
    requires n1 <= part <= |items| && n2 <= |items| - part && (n2 > 0 ==> n1 == part)
    ensures items[..part][..n1] + items[part..][..n2] == items[..n1 + n2]
  {
  }

  lemma DrainBoth<T>(ws: seq<Writer<T>>, items: seq<T>, part: nat, n1: nat, n2: nat, ws2: seq<Writer<T>>)
    requires part <= |items| && n1 == Min(|Rooms(ws)|, part) && n2 == Min(|Rooms(ws)| - n1, |items| - part)
    requires Writable(Rooms(ws)[..n1]) && Writable(Rooms(ws)[n1..][..n2])
    requires ws2 == Deliver(Deliver(ws, items[..part][..n1]), items[part..][..n2])
    ensures WriteOutcome(ws, items, Ok(n1 + n2), ws2)
  {
    RoomParts(Rooms(ws), n1, n2);
    DeliverDeliver(ws, items[..part][..n1], items[part..][..n2]);
    DrainItems(items, part, n1, n2);
  }

  lemma DrainFault2<T>(ws: seq<Writer<T>>, items: seq<T>, part: nat, n1: nat, n2: nat, ws2: seq<Writer<T>>)
    requires part <= |items| && n1 == Min(|Rooms(ws)|, part) && n2 == Min(|Rooms(ws)| - n1, |items| - part)
    requires !Writable(Rooms(ws)[n1..][..n2])
    ensures WriteOutcome(ws, items, Err(EFAULT), ws2)
  {
    RoomParts(Rooms(ws), n1, n2);
  }

  /** Delivering in two parts is delivering at once. */
  lemma DrainTwo<T>(ws: seq<Writer<T>>, items: seq<T>, part: nat, r1: Result<nat, Errno>, ws1: seq<Writer<T>>,
                    r2: Result<nat, Errno>, ws2: seq<Writer<T>>)
    requires part <= |items| && r1.Ok?
    requires WriteOutcome(ws, items[..part], r1, ws1)
    requires WriteOutcome(ws1, items[part..], r2, ws2)
    ensures WriteOutcome(ws, items, if r2.Ok? then Ok(r1.value + r2.value) else Err(EFAULT), ws2)
  {
    var n1 := r1.value;
    var n2 := Min(|Rooms(ws)| - n1, |items| - part);
    DrainRoom(ws, items[..part][..n1]);
    if r2.Ok? {
      DrainBoth(ws, items, part, n1, n2, ws2);
    } else {
      DrainFault2(ws, items, part, n1, n2, ws2);
    }
  }

  class RingBuffer<T(0)> {
    const segment: array<T>
    const capacity: nat
    ghost const exp: nat
    var tail: nat
    var head: nat

    ghost predicate Valid()
      reads this
    {
      && exp <= 63 && capacity == Pow2(exp) && capacity <= segment.Length
      && head < WORD && tail < WORD
      && WrapSub(tail, head) <= capacity
    }

    /** The items in the buffer, oldest first. */
    ghost function Contents(): (s: seq<T>)
      requires Valid()
      reads this, segment
      ensures |s| == WrapSub(tail, head) <= capacity
    {
      Stored(segment[..], capacity, head, WrapSub(tail, head))
    }

    constructor (capacity: nat, ghost exp: nat, nframes: nat)
      requires exp <= 63 && capacity == Pow2(exp) && capacity <= nframes
      ensures Valid() && fresh(segment) && this.capacity == capacity && Contents() == []
    {
      this.capacity, this.exp := capacity, exp;
      segment := new T[nframes];
      head, tail := 0, 0;
    }

    method Len() returns (n: nat)
      requires Valid()
      ensures n == |Contents()|
    {
      n := WrapSub(tail, head);
    }

    /** The subtraction never underflows. */
    method FreeLen() returns (n: nat)
      requires Valid()
      ensures n + |Contents()| == capacity
    {
      n := capacity - WrapSub(tail, head);
    }

    method Clear()
      requires Valid()
      modifies this
      ensures Valid() && Contents() == []
    {
      tail := 0;
      head := 0;
    }

    /** Publishes `n` items that were written behind the tail. */
    method AdvanceTail(n: nat, ghost mem: seq<T>, ghost items: seq<T>, ghost pos: nat)
      requires Valid() && |items| == n && WrapSub(tail, head) + n <= capacity
      requires |mem| == segment.Length && pos == head + WrapSub(tail, head)
      requires segment[..] == Store(mem, capacity, pos, items)
      modifies this`tail
      ensures Valid()
      ensures Contents() == Stored(mem, capacity, old(head), WrapSub(old(tail), old(head))) + items
    {
      Pow2Below();
      CountersAdvance(head, tail, n);
      StoreAppends(mem, capacity, head, WrapSub(tail, head), items);
      tail := WrapAdd(tail, n);
    }

    lemma Pow2Below()
      requires Valid()
      ensures 0 < capacity && 2 * capacity <= WORD
    {
      Pow2Monotone(exp, 63);
    }

    /** Gives up the `n` oldest items. */
    method AdvanceHead(n: nat)
      requires Valid() && n <= |Contents()|
      modifies this`head
      ensures Valid() && Contents() == old(Contents())[n..]
    {
      CountersAdvance(head, tail, n);
      var len := WrapSub(tail, head);
      WrappedSlot(head + n, exp);
      StoredDrop(segment[..], capacity, head, len, n);
      StoredSlot(segment[..], capacity, head + n, WrapAdd(head, n), len - n);
      head := WrapAdd(head, n);
    }

    /** Appends the item unless the buffer is full. */
    method Push(item: T) returns (ok: bool)
      requires Valid()
      modifies this, segment
      ensures Valid()
      ensures ok <==> |old(Contents())| < capacity
      ensures Contents() == if ok then old(Contents()) + [item] else old(Contents())
    {
      var free := FreeLen();
      if free == 0 {
        return false;
      }
      TailSlot(head, tail, exp);
      ghost var mem := segment[..];
      ghost var pos := head + WrapSub(tail, head);
      var offset := BitAnd(tail, capacity - 1);
      segment[offset] := item;
      assert segment[..] == mem[offset := item];
      StoreSingle(mem, capacity, pos, item);
      AdvanceTail(1, mem, [item], pos);
      return true;
    }

    /** Appends all items or, if they do not fit, none. */
    method PushSlice(items: seq<T>) returns (ok: bool)
      requires Valid()
      modifies this, segment
      ensures Valid()
      ensures ok <==> |old(Contents())| + |items| <= capacity
      ensures Contents() == if ok then old(Contents()) + items else old(Contents())
    {
      var free := FreeLen();
      if free < |items| {
        return false;
      }
      TailSlot(head, tail, exp);
      ghost var mem := segment[..];
      var offset := BitAnd(tail, capacity - 1);
      ghost var pos := head + WrapSub(tail, head);
      StoreSlice(offset, items, pos);
      AdvanceTail(|items|, mem, items, pos);
      return true;
    }

    /** Writes the items from slot `offset` on, in up to two parts. */
    method StoreSlice(offset: nat, items: seq<T>, ghost pos: nat)
      requires 0 < capacity <= segment.Length && |items| <= capacity && offset == pos % capacity
      modifies segment
      ensures segment[..] == Store(old(segment[..]), capacity, pos, items)
    {
      if offset + |items| > capacity {
        WriteSlice(offset, items[..capacity - offset]);
        WriteSlice(0, items[capacity - offset..]);
      } else {
        WriteSlice(offset, items);
      }
    }

    method WriteSlice(at: nat, items: seq<T>)
      requires at + |items| <= segment.Length
      modifies segment
      ensures segment[..] == Patch(old(segment[..]), at, items)
    {
      forall i | 0 <= i < |items| {
        segment[at + i] := items[i];
      }
    }

    /** Takes the oldest item, unless the buffer is empty. */
    method Pop() returns (item: Option<T>)
      requires Valid()
      modifies this
      ensures Valid()
      ensures old(Contents()) == [] ==> item == None && Contents() == []
      ensures old(Contents()) != [] ==> item == Some(old(Contents())[0]) && Contents() == old(Contents())[1..]
    {
      if WrapSub(tail, head) == 0 {
        return None;
      }
      MaskIsMod(head, exp);
      var offset := BitAnd(head, capacity - 1);
      item := Some(segment[offset]);
      AdvanceHead(1);
    }

    /** Takes the `n` oldest items or, if there are fewer, none. */
    method PopSlice(n: nat) returns (items: Option<seq<T>>)
      requires Valid()
      modifies this
      ensures Valid()
      ensures |old(Contents())| < n ==> items == None && Contents() == old(Contents())
      ensures n <= |old(Contents())| ==>
                items == Some(old(Contents())[..n]) && Contents() == old(Contents())[n..]
    {
      if WrapSub(tail, head) < n {
        return None;
      }
      MaskIsMod(head, exp);
      StoredParts(segment[..], capacity, head, n);
      StoredDrop(segment[..], capacity, head, WrapSub(tail, head), n);
      var offset := BitAnd(head, capacity - 1);
      if offset + n > capacity {
        items := Some(segment[offset..capacity] + segment[..n - (capacity - offset)]);
      } else {
        items := Some(segment[offset..offset + n]);
      }
      AdvanceHead(n);
    }

    /** Copies from the reader into the `free` slots from position `pos` on, in up to two parts. */
    method Fill(reader: VmReaderArray<T>, offset: nat, free: nat, ghost pos: nat) returns (r: Result<nat, Errno>)
      requires Valid() && free <= capacity && capacity > 0 && offset == pos % capacity
      modifies segment, reader
      ensures FillOutcome(old(reader.readers), free, capacity, pos, old(segment[..]), r, reader.readers, segment[..])
    {
      ghost var mem, rs := segment[..], reader.readers;
      if offset + free > capacity {
        var part := capacity - offset;
        var r1 := reader.Read(segment, offset, part);
        ghost var mem1, rs1 := segment[..], reader.readers;
        if r1.Err? {
          FillFault1(rs, free, capacity, pos, offset, part, mem, r1, rs1, mem1);
          return r1;
        }
        var r2 := reader.Read(segment, 0, free - part);
        if r2.Err? {
          FillFault2(rs, free, capacity, pos, offset, part, mem, r1, rs1, mem1, r2, reader.readers, segment[..]);
          return r2;
        }
        FillTwo(rs, free, capacity, pos, offset, part, mem, r1, rs1, mem1, r2, reader.readers, segment[..]);
        return Ok(r1.value + r2.value);
      }
      r := reader.Read(segment, offset, free);
      FillOne(rs, free, capacity, pos, offset, mem, r, reader.readers, segment[..]);
    }

    /**
      Appends the first `min(reader length, free space, maxLen)` cells and consumes just those.  If
      one of them faults the call fails and the queue is unchanged.
     */
    method WriteFallibleWithMaxLen(reader: VmReaderArray<T>, maxLen: nat) returns (r: Result<nat, Errno>)
      requires Valid()
      modifies this, segment, reader
      ensures Valid()
      ensures var all := old(Concat(reader.readers));
              var n := Min(|all|, Min(capacity - |old(Contents())|, maxLen));
              if Readable(all[..n]) then
                && r == Ok(n)
                && Contents() == old(Contents()) + Values(all[..n])
                && reader.readers == Advance(old(reader.readers), n)
              else
                r == Err(EFAULT) && Contents() == old(Contents())
    {
      var free := FreeLen();
      free := Min(free, maxLen);
      TailSlot(head, tail, exp);
      var offset := BitAnd(tail, capacity - 1);
      ghost var mem, rs, len := segment[..], reader.readers, WrapSub(tail, head);
      ghost var pos := head + len;
      r := Fill(reader, offset, free, pos);
      FillMeans(rs, free, capacity, pos, mem, r, reader.readers, segment[..]);
      assert pos == head + WrapSub(tail, head);
      if r.Ok? {
        AdvanceTail(r.value, mem, Values(Concat(rs)[..r.value]), pos);
      } else {
        FreeSlotsOnly(mem, segment[..], capacity, head, len, free);
      }
    }

    /**
      Delivers the first `min(buffer length, room in the writers, maxLen)` items in order and
      removes just those.  If one of the cells faults the call fails and the queue is unchanged.
     */
    method ReadFallibleWithMaxLen(writer: VmWriterArray<T>, maxLen: nat) returns (r: Result<nat, Errno>)
      requires Valid()
      modifies this, writer
      ensures Valid()
      ensures var room := old(Rooms(writer.writers));
              var n := Min(|room|, Min(|old(Contents())|, maxLen));
              if Writable(room[..n]) then
                && r == Ok(n)
                && writer.writers == Deliver(old(writer.writers), old(Contents())[..n])
                && Contents() == old(Contents())[n..]
              else
                r == Err(EFAULT) && Contents() == old(Contents())
    {
      var len := Min(WrapSub(tail, head), maxLen);
      StoredDrop(segment[..], capacity, head, WrapSub(tail, head), len);
      ghost var items := Contents()[..len];
      r := Drain(writer, len);
      if r.Ok? {
        assert items[..r.value] == Contents()[..r.value];
        AdvanceHead(r.value);
      }
    }

    /** Delivers the `len` oldest items in up to two parts, without removing them. */
    method Drain(writer: VmWriterArray<T>, len: nat) returns (r: Result<nat, Errno>)
      requires Valid() && len <= WrapSub(tail, head)
      modifies writer
      ensures WriteOutcome(old(writer.writers), Stored(segment[..], capacity, head, len), r, writer.writers)
    {
      MaskIsMod(head, exp);
      var offset := BitAnd(head, capacity - 1);
      StoredParts(segment[..], capacity, head, len);
      ghost var items, ws := Stored(segment[..], capacity, head, len), writer.writers;
      if offset + len > capacity {
        var part := capacity - offset;
        r := writer.Write(segment[offset..capacity]);
        var r1 := r;
        ghost var ws1 := writer.writers;
        assert items[..part] == segment[offset..capacity] && items[part..] == segment[..len - part];
        if r.Err? {
          DrainFault1(ws, items, part, writer.writers);
          return;
        }
        r := writer.Write(segment[..len - part]);
        DrainTwo(ws, items, part, r1, ws1, r, writer.writers);
        if r.Ok? {
          r := Ok(r1.value + r.value);
        }
      } else {
        r := writer.Write(segment[offset..offset + len]);
      }
    }

    /** Discards `count` items; the source panics when there are fewer. */
    method Skip(count: nat)
      requires Valid() && count <= |Contents()|
      modifies this
      ensures Valid() && Contents() == old(Contents())[count..]
    {
      AdvanceHead(count);
    }
  }
}
