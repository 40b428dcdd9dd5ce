/**
  Scatter/gather buffers in user memory.

  A reader is the sequence of its remaining cells, and a cell that cannot be read is `None`.  A
  writer is what was written so far and the cells left, with a flag whether a cell can be written.
 */
module UserBuffers {
  import opened Sequences
  import opened Wrappers

  function Min(a: nat, b: nat): nat { if a <= b then a else b }

  /** All buffers laid end to end. */
  function Concat<T>(rs: seq<seq<T>>): seq<T> {
    if rs == [] then [] else rs[0] + Concat(rs[1..])
  }

  lemma {:induction false} ConcatSnoc<T>(rs: seq<seq<T>>, r: seq<T>)
    ensures Concat(rs + [r]) == Concat(rs) + r
  {
    if rs == [] {
      assert rs + [r] == [r];
      assert Concat([r]) == r + Concat([]);
    } else {
      assert (rs + [r])[1..] == rs[1..] + [r];
      ConcatSnoc(rs[1..], r);
    }
  }

  lemma {:induction false} ConcatSplit<T>(rs: seq<seq<T>>, i: nat)
    requires i <= |rs|
    ensures Concat(rs) == Concat(rs[..i]) + Concat(rs[i..])
  {
    if i == 0 {
      assert rs[..0] == [] && rs[0..] == rs;
    } else {
      ConcatSplit(rs, i - 1);
      assert rs[..i] == rs[..i - 1] + [rs[i - 1]];
      ConcatSnoc(rs[..i - 1], rs[i - 1]);
      assert rs[i - 1..][1..] == rs[i..];
    }
  }

  lemma ConcatNext<T>(rs: seq<seq<T>>, i: nat)
    requires i < |rs|
    ensures Concat(rs[..i + 1]) == Concat(rs[..i]) + rs[i]
    ensures Concat(rs) == Concat(rs[..i + 1]) + Concat(rs[i + 1..])
  {
    TakeSnoc(rs, i);
    ConcatSnoc(rs[..i], rs[i]);
    ConcatSplit(rs, i + 1);
  }

  // ----- Readers -----

  predicate Readable<T>(cells: seq<Option<T>>) {
    forall i :: 0 <= i < |cells| ==> cells[i].Some?
  }

  function Values<T>(cells: seq<Option<T>>): (v: seq<T>)
    requires Readable(cells)
    ensures |v| == |cells|
  {
    seq(|cells|, i requires 0 <= i < |cells| => cells[i].value)
  }

  /** The readers after their first `n` cells in total were skipped. */
  function Advance<T>(rs: seq<seq<T>>, n: nat): seq<seq<T>> {
    if rs == [] then []
    else if n <= |rs[0]| then [rs[0][n..]] + rs[1..]
    else [[]] + Advance(rs[1..], n - |rs[0]|)
  }

  lemma {:induction false} AdvanceConcat<T>(rs: seq<seq<T>>, n: nat)
    requires n <= |Concat(rs)|
    ensures Concat(Advance(rs, n)) == Concat(rs)[n..]
  {
    if rs != [] {
      if n <= |rs[0]| {
        assert ([rs[0][n..]] + rs[1..])[1..] == rs[1..];
      } else {
        AdvanceConcat(rs[1..], n - |rs[0]|);
        assert ([[]] + Advance(rs[1..], n - |rs[0]|))[1..] == Advance(rs[1..], n - |rs[0]|);
      }
    }
  }

  lemma {:induction false} AdvanceAdvance<T>(rs: seq<seq<T>>, m: nat, n: nat)
    ensures Advance(Advance(rs, m), n) == Advance(rs, m + n)
  {
    if rs != [] {
      var head, tail := rs[0], rs[1..];
      if m <= |head| {
        var next := [head[m..]] + tail;
        assert Advance(rs, m) == next && next[1..] == tail;
        if n <= |head[m..]| {
          assert head[m..][n..] == head[m + n..];
        }
      } else {
        AdvanceAdvance(tail, m - |head|, n);
        var next := [[]] + Advance(tail, m - |head|);
        assert Advance(rs, m) == next && next[1..] == Advance(tail, m - |head|);
        if n == 0 {
          assert next[0][0..] == [];
        }
      }
    }
  }

  function Empties<T>(n: nat): seq<seq<T>> {
    seq(n, _ => [])
  }

  lemma ConcatTake<T>(rs: seq<seq<T>>, i: nat)
    requires 0 < i <= |rs|
    ensures |Concat(rs[..i])| == |rs[0]| + |Concat(rs[1..][..i - 1])|
  {
    assert rs[..i][1..] == rs[1..][..i - 1];
  }

  lemma EmptiesCons<T>(n: nat)
    ensures Empties<T>(n + 1) == [[]] + Empties<T>(n)
  {
  }

  lemma EmptiesGlue<T>(i: nat, x: seq<T>, rest: seq<seq<T>>)
    requires i > 0
    ensures [[]] + (Empties(i - 1) + [x] + rest) == Empties(i) + [x] + rest
  {
    EmptiesCons<T>(i - 1);
  }

  lemma AdvanceZero<T>(rs: seq<seq<T>>)
    ensures Advance(rs, 0) == rs
  {
  }

  lemma AdvanceIntoTail<T>(rs: seq<seq<T>>, n: nat)
    requires rs != []
    ensures Advance(rs, |rs[0]| + n) == [[]] + Advance(rs[1..], n)
  {
    if n == 0 {
      AdvanceZero(rs[1..]);
      assert rs[0][|rs[0]|..] == [];
    }
  }

  /** Stopping `k` cells into reader `i`: the readers before are exhausted, those after untouched. */
  lemma {:induction false} AdvanceInto<T>(rs: seq<seq<T>>, i: nat, k: nat)
    requires i < |rs| && k <= |rs[i]|
    ensures Advance(rs, |Concat(rs[..i])| + k) == Empties(i) + [rs[i][k..]] + rs[i + 1..]
    decreases i
  {
    if i == 0 {
      assert rs[..0] == [];
    } else {
      var tail := rs[1..];
      AdvanceInto(tail, i - 1, k);
      ConcatTake(rs, i);
      AdvanceIntoTail(rs, |Concat(tail[..i - 1])| + k);
      assert tail[i..] == rs[i + 1..];
      EmptiesGlue(i, rs[i][k..], rs[i + 1..]);
    }
  }

  /** The first cell among `cells` that cannot be read, or their number. */
  function FirstFault<T>(cells: seq<Option<T>>): (k: nat)
    ensures k <= |cells| && Readable(cells[..k])
    ensures k < |cells| ==> cells[k].None?
  {
    if cells == [] || cells[0].None? then 0 else 1 + FirstFault(cells[1..])
  }

  /** `s` with `v` written over it from position `at` on. */
  function Patch<T>(s: seq<T>, at: nat, v: seq<T>): (p: seq<T>)
    requires at + |v| <= |s|
    ensures |p| == |s|
  {
    s[..at] + v + s[at + |v|..]
  }

  lemma PatchSnoc<T>(s: seq<T>, at: nat, v: seq<T>, x: T)
    requires at + |v| < |s|
    ensures Patch(s, at, v + [x]) == Patch(s, at, v)[at + |v| := x]
  {
  }

  lemma PatchAt<T>(s: seq<T>, at: nat, v: seq<T>, i: nat)
    requires at + |v| <= |s| && i < |s|
    ensures Patch(s, at, v)[i] == if at <= i < at + |v| then v[i - at] else s[i]
  {
  }

  lemma PatchPatch<T>(s: seq<T>, at: nat, v: seq<T>, w: seq<T>)
    requires at + |v| + |w| <= |s|
    ensures Patch(Patch(s, at, v), at + |v|, w) == Patch(s, at, v + w)
  {
  }

  lemma PatchNothing<T>(s: seq<T>, at: nat)
    requires at <= |s|
    ensures Patch(s, at, []) == s
  {
  }

  lemma ValuesSnoc<T>(cells: seq<Option<T>>, k: nat)
    requires k < |cells| && Readable(cells[..k]) && cells[k].Some?
    ensures Readable(cells[..k + 1]) && Values(cells[..k + 1]) == Values(cells[..k]) + [cells[k].value]
  {
    TakeSnoc(cells, k);
  }

  /** Copies cells into kernel memory until the first one that faults. */
  method CopyFallible<T>(cells: seq<Option<T>>, dest: array<T>, start: nat) returns (copied: nat)
    requires start + |cells| <= dest.Length
    modifies dest
    ensures copied == FirstFault(cells)
    ensures dest[..] == Patch(old(dest[..]), start, Values(cells[..copied]))
  {
    copied := 0;
    PatchNothing(dest[..], start);
    while copied < |cells| && cells[copied].Some?
      invariant copied <= |cells| && Readable(cells[..copied])
      invariant copied + FirstFault(cells[copied..]) == FirstFault(cells)
      invariant dest[..] == Patch(old(dest[..]), start, Values(cells[..copied]))
    {
      ValuesSnoc(cells, copied);
      PatchSnoc(old(dest[..]), start, Values(cells[..copied]), cells[copied].value);
      assert cells[copied..][1..] == cells[copied + 1..];
      ghost var before := dest[..];
      dest[start + copied] := cells[copied].value;
      assert dest[..] == before[start + copied := cells[copied].value];
      copied := copied + 1;
    }
  }

  /** What reading at most `limit` cells from `rs` into `mem` at `start` leads to. */
  ghost predicate ReadOutcome<T>(rs: seq<seq<Option<T>>>, limit: nat, start: nat, mem: seq<T>,
                                 r: Result<nat, Errno>, rs': seq<seq<Option<T>>>, mem': seq<T>)
    requires start + limit <= |mem|
  {
    var all := Concat(rs);
    var n := Min(|all|, limit);
    if Readable(all[..n]) then
      r == Ok(n) && mem' == Patch(mem, start, Values(all[..n])) && rs' == Advance(rs, n)
    else
      && r == Err(EFAULT)
      && |mem'| == |mem| && mem'[..start] == mem[..start] && mem'[start + limit..] == mem[start + limit..]
  }

  /** The first `i` readers are copied to `start`, the others untouched. */
  ghost predicate Progress<T>(rs: seq<seq<Option<T>>>, i: nat, mem: seq<T>, start: nat,
                              now: seq<seq<Option<T>>>, mem': seq<T>)
    requires i <= |rs|
  {
    var done := Concat(rs[..i]);
    && now == Empties(i) + rs[i..]
    && Readable(done)
    && start + |done| <= |mem|
    && mem' == Patch(mem, start, Values(done))
  }

  lemma ProgressStart<T>(rs: seq<seq<Option<T>>>, mem: seq<T>, start: nat)
    requires start <= |mem|
    ensures Concat(rs[..0]) == [] && Progress(rs, 0, mem, start, rs, mem)
  {
    assert rs[..0] == [];
    assert Empties<Option<T>>(0) + rs[0..] == rs;
    PatchNothing(mem, start);
  }

  /** The copy of at most `avail` cells of reader `i` to `at`, which stops at a fault. */
  ghost predicate CopyOutcome<T>(rs: seq<seq<Option<T>>>, i: nat, avail: nat, mem: seq<T>, at: nat,
                                 copied: nat, full: bool, rs': seq<seq<Option<T>>>, mem': seq<T>)
    requires i < |rs| && at + avail <= |mem|
  {
    var cells := rs[i][..Min(|rs[i]|, avail)];
    && copied == FirstFault(cells)
    && full == (copied == |cells|)
    && mem' == Patch(mem, at, Values(rs[i][..copied]))
    && rs' == rs[i := rs[i][copied..]]
  }

  /** Position and contents of the cells a copy from reader `i` takes. */
  lemma StepFacts<T>(rs: seq<seq<T>>, i: nat, k: nat)
    requires i < |rs| && k <= |rs[i]|
    ensures var t := |Concat(rs[..i])|;
            && t + |rs[i]| <= |Concat(rs)|
            && Concat(rs)[..t + k] == Concat(rs[..i]) + rs[i][..k]
            && Concat(rs[..i + 1]) == Concat(rs[..i]) + rs[i]
  {
    ConcatSplit(rs, i);
    assert rs[i..][1..] == rs[i + 1..];
    TakeSnoc(rs, i);
    ConcatSnoc(rs[..i], rs[i]);
  }

  lemma ValuesConcat<T>(a: seq<Option<T>>, b: seq<Option<T>>)
    requires Readable(a) && Readable(b)
    ensures Readable(a + b) && Values(a + b) == Values(a) + Values(b)
  {
  }

  /** The memory after the next `k` cells were copied behind those of the first `i` readers. */
  lemma CopiedOn<T>(rs: seq<seq<Option<T>>>, i: nat, mem: seq<T>, start: nat, before: seq<T>, k: nat, after: seq<T>)
    requires i < |rs| && k <= |rs[i]| && Readable(Concat(rs[..i])) && Readable(rs[i][..k])
    requires start + |Concat(rs[..i])| + k <= |mem| && before == Patch(mem, start, Values(Concat(rs[..i])))
    requires after == Patch(before, start + |Concat(rs[..i])|, Values(rs[i][..k]))
    ensures var all := Concat(rs[..i]) + rs[i][..k];
            Readable(all) && after == Patch(mem, start, Values(all))
  {
    ValuesConcat(Concat(rs[..i]), rs[i][..k]);
    PatchPatch(mem, start, Values(Concat(rs[..i])), Values(rs[i][..k]));
  }

  lemma EmptiesNext<T>(rs: seq<seq<T>>, i: nat, k: nat)
    requires i < |rs| && k <= |rs[i]|
    ensures (Empties(i) + rs[i..])[i := rs[i][k..]] == Empties(i) + [rs[i][k..]] + rs[i + 1..]
    ensures k == |rs[i]| ==> (Empties(i) + rs[i..])[i := rs[i][k..]] == Empties(i + 1) + rs[i + 1..]
  {
    if k == |rs[i]| { assert rs[i][k..] == []; }
  }

  /** After all `k` wanted cells of reader `i` were copied. */
  lemma FullStep<T>(rs: seq<seq<Option<T>>>, i: nat, mem: seq<T>, start: nat, limit: nat,
                    before: seq<T>, k: nat, after: seq<T>, now: seq<seq<Option<T>>>)
    requires i < |rs| && start + limit <= |mem|
    requires Progress(rs, i, mem, start, Empties(i) + rs[i..], before)
    requires |Concat(rs[..i])| <= limit && k == Min(|rs[i]|, limit - |Concat(rs[..i])|)
    requires Readable(rs[i][..k]) && after == Patch(before, start + |Concat(rs[..i])|, Values(rs[i][..k]))
    requires now == (Empties(i) + rs[i..])[i := rs[i][k..]]
    ensures |Concat(rs[..i])| + k < limit ==>
              Progress(rs, i + 1, mem, start, now, after) && |Concat(rs[..i + 1])| == |Concat(rs[..i])| + k
    ensures |Concat(rs[..i])| + k == limit ==> ReadOutcome(rs, limit, start, mem, Ok(limit), now, after)
  {
    StepFacts(rs, i, k);
    CopiedOn(rs, i, mem, start, before, k, after);
    EmptiesNext(rs, i, k);
    if |Concat(rs[..i])| + k < limit {
      assert rs[i][..k] == rs[i];
    } else {
      AdvanceInto(rs, i, k);
    }
  }

  /** After the copy from reader `i` met a fault at its cell `copied`. */
  lemma FaultStep<T>(rs: seq<seq<Option<T>>>, i: nat, mem: seq<T>, start: nat, limit: nat,
                     before: seq<T>, copied: nat, after: seq<T>, now: seq<seq<Option<T>>>)
    requires i < |rs| && start + limit <= |mem|
    requires Progress(rs, i, mem, start, Empties(i) + rs[i..], before)
    requires |Concat(rs[..i])| + copied < limit && copied < |rs[i]|
    requires rs[i][copied].None? && Readable(rs[i][..copied])
    requires after == Patch(before, start + |Concat(rs[..i])|, Values(rs[i][..copied]))
    ensures ReadOutcome(rs, limit, start, mem, Err(EFAULT), now, after)
  {
    var t := |Concat(rs[..i])|;
    StepFacts(rs, i, copied + 1);
    assert Concat(rs)[..t + copied + 1][t + copied] == rs[i][copied];
    assert Concat(rs)[t + copied].None?;
    var n := Min(|Concat(rs)|, limit);
    assert Concat(rs)[..n][t + copied].None?;
  }

  lemma ReadStep<T>(rs: seq<seq<Option<T>>>, i: nat, total: nat, mem: seq<T>, start: nat, limit: nat,
                    prev: seq<seq<Option<T>>>, before: seq<T>, copied: nat, full: bool,
                    now: seq<seq<Option<T>>>, after: seq<T>)
    requires i < |rs| == |prev| && start + limit <= |mem| == |before| && total == |Concat(rs[..i])| <= limit
    requires Progress(rs, i, mem, start, prev, before)
    requires CopyOutcome(prev, i, limit - total, before, start + total, copied, full, now, after)
    ensures !full ==> ReadOutcome(rs, limit, start, mem, Err(EFAULT), now, after)
    ensures full && total + copied == limit ==> ReadOutcome(rs, limit, start, mem, Ok(total + copied), now, after)
    ensures full && total + copied != limit ==>
              && total + copied < limit
              && Progress(rs, i + 1, mem, start, now, after)
              && |Concat(rs[..i + 1])| == total + copied
  {
    assert prev[i] == rs[i];
    var cells := rs[i][..Min(|rs[i]|, limit - total)];
    if full {
      assert rs[i][..copied] == cells[..copied] == cells;
      FullStep(rs, i, mem, start, limit, before, copied, after, now);
    } else {
      assert rs[i][..copied] == cells[..copied];
      assert rs[i][copied] == cells[copied];
      FaultStep(rs, i, mem, start, limit, before, copied, after, now);
    }
  }

  lemma ConcatHead<T>(rs: seq<seq<T>>)
    requires rs != []
    ensures |Concat(rs)| == |rs[0]| + |Concat(rs[1..])|
  {
  }

  lemma {:induction false} AdvanceBeyond<T>(rs: seq<seq<T>>, n: nat)
    requires n >= |Concat(rs)|
    ensures Advance(rs, n) == Empties(|rs|)
  {
    if rs == [] {
      assert Empties<T>(0) == [];
    } else {
      ConcatHead(rs);
      var m := n - |rs[0]|;
      AdvanceBeyond(rs[1..], m);
      AdvanceIntoTail(rs, m);
      EmptiesCons<T>(|rs| - 1);
    }
  }

  /** After the last reader was exhausted. */
  lemma ProgressEnd<T>(rs: seq<seq<Option<T>>>, total: nat, mem: seq<T>, start: nat, limit: nat,
                       after: seq<T>, now: seq<seq<Option<T>>>)
    requires start + limit <= |mem| && total == |Concat(rs[..|rs|])| <= limit
    requires Progress(rs, |rs|, mem, start, now, after)
    ensures ReadOutcome(rs, limit, start, mem, Ok(total), now, after)
  {
    var all := Concat(rs);
    assert rs[..|rs|] == rs;
    assert all[..|all|] == all;
    AdvanceBeyond(rs, |all|);
  }

  lemma SkipStep<T>(rs: seq<seq<T>>, i: nat, k: nat)
    requires i < |rs| && k <= |rs[i]|
    ensures (Empties(i) + rs[i..])[i] == rs[i]
    ensures (Empties(i) + rs[i..])[i := rs[i][k..]] == Advance(rs, |Concat(rs[..i])| + k)
    ensures k == |rs[i]| ==> (Empties(i) + rs[i..])[i := rs[i][k..]] == Empties(i + 1) + rs[i + 1..]
    ensures |Concat(rs[..i + 1])| == |Concat(rs[..i])| + |rs[i]|
  {
    AdvanceInto(rs, i, k);
    EmptiesNext(rs, i, k);
    ConcatNext(rs, i);
  }

  class VmReaderArray<T> {
    var readers: seq<seq<Option<T>>>

    constructor (readers: seq<seq<Option<T>>>)
      ensures this.readers == readers
    {
      this.readers := readers;
    }

    /** The copy from one reader: its cursor moves past what was copied. */
    method ReadFallible(i: nat, dest: array<T>, at: nat, avail: nat) returns (copied: nat, full: bool)
      requires i < |readers| && at + avail <= dest.Length
      modifies this, dest
      ensures CopyOutcome(old(readers), i, avail, old(dest[..]), at, copied, full, readers, dest[..])
    {
      var cells := readers[i][..Min(|readers[i]|, avail)];
      copied := CopyFallible(cells, dest, at);
      assert cells[..copied] == readers[i][..copied];
      readers := readers[i := readers[i][copied..]];
      full := copied == |cells|;
    }

    /**
      Fills kernel memory from `start` on with the next `min(sum_lens, limit)` values.  Fails
      exactly when one of those cells faults, and then changes no memory outside the target.
     */
    method Read(dest: array<T>, start: nat, limit: nat) returns (r: Result<nat, Errno>)
      requires start + limit <= dest.Length
      modifies this, dest
      ensures ReadOutcome(old(readers), limit, start, old(dest[..]), r, readers, dest[..])
    {
      ghost var rs, mem := readers, dest[..];
      var total := 0;
      var i := 0;
      ProgressStart(rs, mem, start);
      while i < |readers|
        invariant i <= |readers| == |rs| && (total < limit || total == limit == i == 0)
        invariant total == |Concat(rs[..i])|
        invariant Progress(rs, i, mem, start, readers, dest[..])
      {
        ghost var prev, before := readers, dest[..];
        var copied, full := ReadFallible(i, dest, start + total, limit - total);
        ghost var now, after := readers, dest[..];
        ReadStep(rs, i, total, mem, start, limit, prev, before, copied, full, now, after);
        if !full {
          return Err(EFAULT);
        }
        total := total + copied;
        if total == limit {
          return Ok(total);
        }
        i := i + 1;
      }
      ProgressEnd(rs, total, mem, start, limit, dest[..], readers);
      return Ok(total);
    }

    method SumLens() returns (n: nat)
      ensures n == |Concat(readers)|
    {
      n := 0;
      for i := 0 to |readers|
        invariant n == |Concat(readers[..i])|
      {
        ConcatNext(readers, i);
        n := n + |readers[i]|;
      }
      assert readers[..|readers|] == readers;
    }

    /** Skips the first `nbytes` cells in all, or everything there is. */
    method SkipSome(nbytes: nat)
      modifies this
      ensures readers == Advance(old(readers), nbytes)
    {
      ghost var rs := readers;
      var rest: nat := nbytes;
      assert rs == Empties(0) + rs[0..];
      for i := 0 to |readers|
        invariant |readers| == |rs| && readers == Empties(i) + rs[i..]
        invariant rest + |Concat(rs[..i])| == nbytes
      {
        var skip := Min(|readers[i]|, rest);
        SkipStep(rs, i, skip);
        readers := readers[i := readers[i][skip..]];
        rest := rest - skip;
        if rest == 0 {
          return;
        }
      }
      assert rs[..|rs|] == rs && Empties(|rs|) + rs[|rs|..] == Empties(|rs|);
      AdvanceBeyond(rs, nbytes);
    }
  }

  // ----- Writers -----

  datatype Writer<T> = Writer(out: seq<T>, room: seq<bool>) {
    /** `data` appended to what was written. */
    function Put(data: seq<T>): Writer<T>
      requires |data| <= |room|
    {
      Writer(out + data, room[|data|..])
    }
  }

  /** The cells left in all writers, end to end. */
  function Rooms<T>(ws: seq<Writer<T>>): seq<bool> {
    if ws == [] then [] else ws[0].room + Rooms(ws[1..])
  }

  predicate Writable(room: seq<bool>) {
    forall i :: 0 <= i < |room| ==> room[i]
  }

  /** The writers after `data` was laid into them in order, each filled before the next is touched. */
  function Deliver<T>(ws: seq<Writer<T>>, data: seq<T>): (r: seq<Writer<T>>)
    ensures |r| == |ws|
  {
    if ws == [] then []
    else
      var k := Min(|ws[0].room|, |data|);
      [ws[0].Put(data[..k])] + Deliver(ws[1..], data[k..])
  }

  lemma {:induction false} RoomsSplit<T>(ws: seq<Writer<T>>, i: nat)
    requires i <= |ws|
    ensures Rooms(ws) == Rooms(ws[..i]) + Rooms(ws[i..])
  {
    if i == 0 {
      assert ws[..0] == [] && ws[0..] == ws;
    } else {
      RoomsSplit(ws[1..], i - 1);
      assert ws[..i][1..] == ws[1..][..i - 1];
      assert ws[i..] == ws[1..][i - 1..];
    }
  }

  lemma {:induction false} DeliverNothing<T>(ws: seq<Writer<T>>)
    ensures Deliver(ws, []) == ws
  {
    if ws != [] {
      DeliverNothing(ws[1..]);
      assert ws[0].Put([]) == ws[0];
    }
  }

  lemma DeliverFullHead<T>(ws: seq<Writer<T>>, data: seq<T>)
    requires ws != [] && |ws[0].room| <= |data|
    ensures var k := |ws[0].room|;
            Deliver(ws, data) == [ws[0].Put(data[..k])] + Deliver(ws[1..], data[k..])
  {
  }

  lemma SplitGlue<T>(ws: seq<Writer<T>>, i: nat, data: seq<T>, t: nat, k: nat)
    requires 0 < i <= |ws| && k <= t <= |data|
    ensures ws[i..] == ws[1..][i - 1..] && data[..t][..k] == data[..k]
    ensures data[..t][k..] == data[k..][..t - k] && data[k..][t - k..] == data[t..]
  {
  }

  /** The data fills the first `i` writers, and the rest of it goes to the other ones. */
  lemma {:induction false} DeliverSplit<T>(ws: seq<Writer<T>>, i: nat, data: seq<T>)
    requires i <= |ws| && |Rooms(ws[..i])| <= |data|
    ensures var t := |Rooms(ws[..i])|;
            Deliver(ws, data) == Deliver(ws[..i], data[..t]) + Deliver(ws[i..], data[t..])
  {
    if i == 0 {
      assert ws[..0] == [] && ws[0..] == ws && data[0..] == data;
    } else {
      var t, k := |Rooms(ws[..i])|, |ws[0].room|;
      var tail, rest := ws[1..], data[k..];
      assert ws[..i][1..] == tail[..i - 1];
      assert Rooms(ws[..i]) == ws[0].room + Rooms(tail[..i - 1]);
      DeliverSplit(tail, i - 1, rest);
      DeliverFullHead(ws, data);
      DeliverFullHead(ws[..i], data[..t]);
      SplitGlue(ws, i, data, t, k);
      Assoc([ws[0].Put(data[..k])], Deliver(tail[..i - 1], rest[..t - k]), Deliver(ws[i..], data[t..]));
    }
  }

  lemma DeliverCons<T>(ws: seq<Writer<T>>, data: seq<T>, k: nat)
    requires ws != [] && k == Min(|ws[0].room|, |data|)
    ensures Deliver(ws, data)[0] == ws[0].Put(data[..k])
    ensures Deliver(ws, data)[1..] == Deliver(ws[1..], data[k..])
  {
  }

  lemma DeliverAtOnce<T>(ws: seq<Writer<T>>, all: seq<T>, v: seq<T>, w: seq<T>, k: nat, m: nat)
    requires ws != [] && all == v + w && k <= |v| && m <= |w| && (k < |v| ==> m == 0)
    requires k + m == Min(|ws[0].room|, |all|)
    ensures Deliver(ws, all)[0] == ws[0].Put(all[..k + m])
    ensures Deliver(ws, all)[1..] == Deliver(ws[1..], v[k..] + w[m..])
  {
    DropBoth(v, w, k, m);
    DeliverCons(ws, all, k + m);
  }

  lemma DeliverOnto<T>(ws: seq<Writer<T>>, mid: seq<Writer<T>>, v: seq<T>, w: seq<T>, k: nat, m: nat)
    requires ws != [] && k == Min(|ws[0].room|, |v|) && m == Min(|ws[0].room| - k, |w|) && mid == Deliver(ws, v)
    ensures m <= |ws[0].Put(v[..k]).room|
    ensures Deliver(mid, w)[0] == ws[0].Put(v[..k]).Put(w[..m])
    ensures Deliver(mid, w)[1..] == Deliver(Deliver(ws[1..], v[k..]), w[m..])
  {
    DeliverCons(ws, v, k);
    DeliverCons(mid, w, m);
  }

  lemma PutPut<T>(w: Writer<T>, a: seq<T>, b: seq<T>, k: nat, m: nat)
    requires k == Min(|w.room|, |a|) && m == Min(|w.room| - k, |b|)
    ensures w.Put(a[..k]).Put(b[..m]) == w.Put((a + b)[..k + m])
    ensures k + m == Min(|w.room|, |a + b|)
    ensures k < |a| ==> m == 0
  {
    assert k + m == Min(|w.room|, |a + b|);
    assert (a + b)[..k + m] == a[..k] + b[..m];
    assert w.out + a[..k] + b[..m] == w.out + (a[..k] + b[..m]);
  }

  /** Head and tail of delivering in two portions, and of delivering at once. */
  lemma DeliverTwiceCons<T>(ws: seq<Writer<T>>, v: seq<T>, w: seq<T>, k: nat, m: nat)
    requires ws != [] && k == Min(|ws[0].room|, |v|) && m == Min(|ws[0].room| - k, |w|)
    ensures Deliver(Deliver(ws, v), w)[0] == Deliver(ws, v + w)[0]
    ensures Deliver(Deliver(ws, v), w)[1..] == Deliver(Deliver(ws[1..], v[k..]), w[m..])
    ensures Deliver(ws, v + w)[1..] == Deliver(ws[1..], v[k..] + w[m..])
  {
    PutPut(ws[0], v, w, k, m);
    DeliverAtOnce(ws, v + w, v, w, k, m);
    DeliverOnto(ws, Deliver(ws, v), v, w, k, m);
  }

  lemma {:induction false} DeliverDeliver<T>(ws: seq<Writer<T>>, v: seq<T>, w: seq<T>)
    ensures Deliver(Deliver(ws, v), w) == Deliver(ws, v + w)
  {
    if ws != [] {
      var k := Min(|ws[0].room|, |v|);
      var m := Min(|ws[0].room| - k, |w|);
      DeliverDeliver(ws[1..], v[k..], w[m..]);
      DeliverTwiceCons(ws, v, w, k, m);
      HeadTail(Deliver(Deliver(ws, v), w), Deliver(ws, v + w));
    }
  }

  /** What each writer gained, end to end. */
  function Gained<T>(ws: seq<Writer<T>>, vs: seq<Writer<T>>): seq<T>
    requires |ws| == |vs| && forall i :: 0 <= i < |ws| ==> |ws[i].out| <= |vs[i].out|
  {
    if ws == [] then [] else vs[0].out[|ws[0].out|..] + Gained(ws[1..], vs[1..])
  }

  lemma DeliverHead<T>(ws: seq<Writer<T>>, vs: seq<Writer<T>>, data: seq<T>, k: nat)
    requires |ws| == |vs| > 0 && k <= |data| && k <= |ws[0].room|
    requires vs[0] == ws[0].Put(data[..k])
    requires forall i :: 0 <= i < |ws| ==> |ws[i].out| <= |vs[i].out|
    requires Gained(ws[1..], vs[1..]) == data[k..]
    requires |data| - k <= |Rooms(ws[1..])| && Rooms(vs[1..]) == Rooms(ws[1..])[|data| - k..]
    requires k < |ws[0].room| ==> k == |data|
    ensures Gained(ws, vs) == data && Rooms(vs) == Rooms(ws)[|data|..]
  {
    assert vs[0].out[|ws[0].out|..] == data[..k];
    assert vs[0].room == ws[0].room[k..];
  }

  /**
    Delivered data that fits appears in order and without gaps, nothing written before is touched,
    and a writer gains something only if all earlier ones are full.
   */
  lemma {:induction false} DeliverInOrder<T>(ws: seq<Writer<T>>, data: seq<T>)
    requires |data| <= |Rooms(ws)|
    ensures var vs := Deliver(ws, data);
            && (forall i :: 0 <= i < |ws| ==> ws[i].out <= vs[i].out)
            && Gained(ws, vs) == data
            && Rooms(vs) == Rooms(ws)[|data|..]
            && (forall i, j :: 0 <= i < j < |ws| && vs[j].out != ws[j].out ==> vs[i].room == [])
  {
    if ws != [] {
      var k := Min(|ws[0].room|, |data|);
      var tail, rest := ws[1..], data[k..];
      DeliverInOrder(tail, rest);
      var vs, us := Deliver(ws, data), Deliver(tail, rest);
      assert vs[0] == ws[0].Put(data[..k]) && vs[1..] == us;
      if k < |ws[0].room| {
        DeliverNothing(tail);
      }
      forall i | 0 < i < |ws| ensures ws[i] == tail[i - 1] && vs[i] == us[i - 1] {}
      DeliverHead(ws, vs, data, k);
    }
  }

  /** The first cell that cannot be written, or the number of cells. */
  function FirstReadOnly(room: seq<bool>): (k: nat)
    ensures k <= |room| && Writable(room[..k])
    ensures k < |room| ==> !room[k]
  {
    if room == [] || !room[0] then 0 else 1 + FirstReadOnly(room[1..])
  }

  ghost predicate WriteOutcome<T>(ws: seq<Writer<T>>, data: seq<T>, r: Result<nat, Errno>, ws': seq<Writer<T>>) {
    var n := Min(|Rooms(ws)|, |data|);
    if Writable(Rooms(ws)[..n]) then r == Ok(n) && ws' == Deliver(ws, data[..n]) else r == Err(EFAULT)
  }

  /** The first `i` writers are filled, the others untouched. */
  ghost predicate Delivering<T>(ws: seq<Writer<T>>, i: nat, data: seq<T>, now: seq<Writer<T>>)
    requires i <= |ws|
  {
    && Writable(Rooms(ws[..i]))
    && |Rooms(ws[..i])| <= |data|
    && now == Deliver(ws[..i], data[..|Rooms(ws[..i])|]) + ws[i..]
  }

  lemma WriterFacts<T>(ws: seq<Writer<T>>, i: nat, k: nat)
    requires i < |ws| && k <= |ws[i].room|
    ensures var t := |Rooms(ws[..i])|;
            && t + |ws[i].room| <= |Rooms(ws)|
            && Rooms(ws)[..t + k] == Rooms(ws[..i]) + ws[i].room[..k]
            && Rooms(ws[..i + 1]) == Rooms(ws[..i]) + ws[i].room
  {
    RoomsSplit(ws, i);
    assert ws[i..][0] == ws[i];
    RoomsSplit(ws[..i + 1], i);
    assert ws[..i + 1][..i] == ws[..i];
    assert ws[..i + 1][i..] == [ws[i]];
    assert Rooms([ws[i]]) == ws[i].room;
  }

  lemma WriteFault<T>(ws: seq<Writer<T>>, i: nat, copied: nat, data: seq<T>, now: seq<Writer<T>>)
    requires i < |ws| && |Rooms(ws[..i])| + copied < |data|
    requires copied < |ws[i].room| && !ws[i].room[copied]
    ensures WriteOutcome(ws, data, Err(EFAULT), now)
  {
    var t := |Rooms(ws[..i])|;
    WriterFacts(ws, i, copied + 1);
    assert Rooms(ws)[..t + copied + 1][t + copied] == ws[i].room[copied];
    var n := Min(|Rooms(ws)|, |data|);
    assert !Rooms(ws)[..n][t + copied];
  }

  lemma DeliverOne<T>(w: Writer<T>, data: seq<T>)
    requires |data| == |w.room|
    ensures Deliver([w], data) == [w.Put(data)]
  {
    assert data[..|data|] == data;
  }

  /** A writer filled to the brim: the delivery goes on with the next one. */
  lemma WriterFull<T>(ws: seq<Writer<T>>, i: nat, data: seq<T>)
    requires i < |ws| && |Rooms(ws[..i])| + |ws[i].room| <= |data|
    ensures var t, k := |Rooms(ws[..i])|, |ws[i].room|;
            Deliver(ws[..i + 1], data[..t + k]) == Deliver(ws[..i], data[..t]) + [ws[i].Put(data[t..t + k])]
  {
    var t, k := |Rooms(ws[..i])|, |ws[i].room|;
    var pre, part := ws[..i + 1], data[..t + k];
    assert pre[..i] == ws[..i] && pre[i..] == [ws[i]];
    DeliverSplit(pre, i, part);
    assert part[..t] == data[..t] && part[t..] == data[t..t + k];
    DeliverOne(ws[i], data[t..t + k]);
  }

  lemma DeliverToHead<T>(ws: seq<Writer<T>>, data: seq<T>)
    requires ws != [] && |data| <= |ws[0].room|
    ensures Deliver(ws, data) == [ws[0].Put(data)] + ws[1..]
  {
    assert data[..|data|] == data && data[|data|..] == [];
    DeliverNothing(ws[1..]);
  }

  /** The data ends in writer `i`: the later writers stay as they are. */
  lemma WriterLast<T>(ws: seq<Writer<T>>, i: nat, data: seq<T>)
    requires i < |ws| && |Rooms(ws[..i])| <= |data| <= |Rooms(ws[..i])| + |ws[i].room|
    ensures var t := |Rooms(ws[..i])|;
            Deliver(ws, data) == Deliver(ws[..i], data[..t]) + [ws[i].Put(data[t..])] + ws[i + 1..]
  {
    var t := |Rooms(ws[..i])|;
    DeliverSplit(ws, i, data);
    DeliverToHead(ws[i..], data[t..]);
    assert ws[i..][1..] == ws[i + 1..];
    Assoc(Deliver(ws[..i], data[..t]), [ws[i].Put(data[t..])], ws[i + 1..]);
  }

  lemma DeliveringStart<T>(ws: seq<Writer<T>>, data: seq<T>)
    ensures Rooms(ws[..0]) == [] && Delivering(ws, 0, data, ws)
  {
    assert ws[..0] == [] && data[..0] == [];
  }

  lemma DeliveringAt<T>(ws: seq<Writer<T>>, i: nat, data: seq<T>, now: seq<Writer<T>>)
    requires i < |ws| && Delivering(ws, i, data, now)
    ensures |now| == |ws| && now[i] == ws[i]
  {
  }

  lemma UpdateAt<T>(a: seq<T>, ws: seq<T>, i: nat, w: T)
    requires |a| == i < |ws|
    ensures (a + ws[i..])[i := w] == a + [w] + ws[i + 1..]
  {
  }

  /** The data ends in writer `i`. */
  lemma WriteLast<T>(ws: seq<Writer<T>>, i: nat, total: nat, k: nat, data: seq<T>, now: seq<Writer<T>>)
    requires i < |ws| && Writable(Rooms(ws[..i])) && total == |Rooms(ws[..i])| && total + k == |data|
    requires k <= |ws[i].room| && Writable(ws[i].room[..k])
    requires now == Deliver(ws[..i], data[..total]) + [ws[i].Put(data[total..total + k])] + ws[i + 1..]
    ensures WriteOutcome(ws, data, Ok(total + k), now)
  {
    WriterFacts(ws, i, k);
    WriterLast(ws, i, data);
    assert data[..|data|] == data && data[total..total + k] == data[total..];
  }

  /** Writer `i` is full, and there is more data. */
  lemma WriteMore<T>(ws: seq<Writer<T>>, i: nat, total: nat, k: nat, data: seq<T>, now: seq<Writer<T>>)
    requires i < |ws| && Writable(Rooms(ws[..i])) && total == |Rooms(ws[..i])| && total + k < |data|
    requires k == |ws[i].room| && Writable(ws[i].room)
    requires now == Deliver(ws[..i], data[..total]) + [ws[i].Put(data[total..total + k])] + ws[i + 1..]
    ensures Delivering(ws, i + 1, data, now) && |Rooms(ws[..i + 1])| == total + k
  {
    WriterFacts(ws, i, k);
    WriterFull(ws, i, data);
    assert ws[i].room[..k] == ws[i].room;
  }

  lemma WriteStep<T>(ws: seq<Writer<T>>, i: nat, total: nat, k: nat, data: seq<T>, prev: seq<Writer<T>>,
                     now: seq<Writer<T>>)
    requires i < |ws| == |prev| && Delivering(ws, i, data, prev) && total == |Rooms(ws[..i])|
    requires k == Min(|ws[i].room|, |data| - total) && Writable(ws[i].room[..k])
    requires now == prev[i := ws[i].Put(data[total..total + k])]
    ensures total + k == |data| ==> WriteOutcome(ws, data, Ok(total + k), now)
    ensures total + k != |data| ==>
              && total + k < |data|
              && Delivering(ws, i + 1, data, now) && |Rooms(ws[..i + 1])| == total + k
  {
    UpdateAt(Deliver(ws[..i], data[..total]), ws, i, ws[i].Put(data[total..total + k]));
    if total + k == |data| {
      WriteLast(ws, i, total, k, data, now);
    } else {
      assert ws[i].room[..k] == ws[i].room;
      WriteMore(ws, i, total, k, data, now);
    }
  }

  /** The copy of `data` from `total` on into writer `i`, which stops at a cell that cannot be written. */
  ghost predicate PutOutcome<T>(ws: seq<Writer<T>>, i: nat, data: seq<T>, total: nat, copied: nat, full: bool,
                                ws': seq<Writer<T>>)
    requires i < |ws| && total <= |data|
  {
    var k := Min(|ws[i].room|, |data| - total);
    && copied == FirstReadOnly(ws[i].room[..k])
    && full == (copied == k)
    && ws' == ws[i := ws[i].Put(data[total..total + copied])]
  }

  lemma PutStep<T>(ws: seq<Writer<T>>, i: nat, total: nat, data: seq<T>, prev: seq<Writer<T>>,
                   copied: nat, full: bool, now: seq<Writer<T>>)
    requires i < |ws| == |prev| && Delivering(ws, i, data, prev) && total == |Rooms(ws[..i])| <= |data|
    requires PutOutcome(prev, i, data, total, copied, full, now)
    ensures !full ==> WriteOutcome(ws, data, Err(EFAULT), now)
    ensures full && total + copied == |data| ==> WriteOutcome(ws, data, Ok(total + copied), now)
    ensures full && total + copied != |data| ==>
              && total + copied < |data|
              && Delivering(ws, i + 1, data, now) && |Rooms(ws[..i + 1])| == total + copied
  {
    DeliveringAt(ws, i, data, prev);
    var k := Min(|ws[i].room|, |data| - total);
    if full {
      assert ws[i].room[..k][..k] == ws[i].room[..k];
      WriteStep(ws, i, total, k, data, prev, now);
    } else {
      assert ws[i].room[..k][copied] == ws[i].room[copied];
      WriteFault(ws, i, copied, data, now);
    }
  }

  /** After the last writer was filled. */
  lemma DeliveringEnd<T>(ws: seq<Writer<T>>, total: nat, data: seq<T>, now: seq<Writer<T>>)
    requires Delivering(ws, |ws|, data, now) && total == |Rooms(ws[..|ws|])|
    ensures WriteOutcome(ws, data, Ok(total), now)
  {
    assert ws[..|ws|] == ws && ws[|ws|..] == [];
    assert Rooms(ws)[..total] == Rooms(ws);
  }

  class VmWriterArray<T> {
    var writers: seq<Writer<T>>

    constructor (writers: seq<Writer<T>>)
      ensures this.writers == writers
    {
      this.writers := writers;
    }

    /** The copy into one writer: what was written is appended to it. */
    method WriteFallible(i: nat, data: seq<T>, total: nat) returns (copied: nat, full: bool)
      requires i < |writers| && total <= |data|
      modifies this
      ensures PutOutcome(old(writers), i, data, total, copied, full, writers)
    {
      var w := writers[i];
      var k := Min(|w.room|, |data| - total);
      copied := FirstReadOnly(w.room[..k]);
      full := copied == k;
      writers := writers[i := w.Put(data[total..total + copied])];
    }

    /**
      Delivers the first `min(sum_lens, |data|)` items.  Fails exactly when one of the cells they
      would go to cannot be written.
     */
    method Write(data: seq<T>) returns (r: Result<nat, Errno>)
      modifies this
      ensures WriteOutcome(old(writers), data, r, writers)
    {
      ghost var ws := writers;
      var total, i := 0, 0;
      DeliveringStart(ws, data);
      while i < |writers|
        invariant i <= |writers| == |ws| && (total < |data| || total == |data| == i == 0)
        invariant total == |Rooms(ws[..i])| && Delivering(ws, i, data, writers)
      {
        ghost var prev := writers;
        var copied, full := WriteFallible(i, data, total);
        ghost var now := writers;
        PutStep(ws, i, total, data, prev, copied, full, now);
        if !full {
          return Err(EFAULT);
        }
        total := total + copied;
        if total == |data| {
          return Ok(total);
        }
        i := i + 1;
      }
      DeliveringEnd(ws, total, data, writers);
      return Ok(total);
    }
  }
}
