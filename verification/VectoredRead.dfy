/**
  I/O vectors taken from user memory, and the vectored positional read over them.

  The file is a fixed sequence of bytes; how much each `read_at` delivers, and whether it fails, is
  an input.  A writer is the bytes delivered to it so far, below its room.
 */
module VectoredRead {
  import opened Sequences
  import opened UserBuffers
  import opened Words
  import opened Wrappers

  type I64 = x: int | -0x8000_0000_0000_0000 <= x < 0x8000_0000_0000_0000

  const MAX_IO_VECTOR_LENGTH: nat := 1024
  const MAX_TOTAL_IOV_BYTES: nat := 0x7FFF_FFFF_FFFF_FFFF

  // ----- I/O vectors -----

  datatype UserIoVec = UserIoVec(base: nat, len: I64)
  datatype IoVec = IoVec(base: nat, len: nat)

  predicate IsEmpty(v: IoVec) { v.len == 0 || v.base == 0 }

  function Sum(s: seq<nat>): nat {
    if s == [] then 0 else s[0] + Sum(s[1..])
  }

  lemma {:induction false} SumSnoc(s: seq<nat>, x: nat)
    ensures Sum(s + [x]) == Sum(s) + x
  {
    if s == [] {
      assert s + [x] == [x];
      assert Sum([x]) == x + Sum([]);
    } else {
      assert (s + [x])[1..] == s[1..] + [x];
      SumSnoc(s[1..], x);
    }
  }

  lemma {:induction false} SumSplit(s: seq<nat>, n: nat)
    requires n <= |s|
    ensures Sum(s) == Sum(s[..n]) + Sum(s[n..])
    decreases |s| - n
  {
    if n == |s| {
      assert s[..n] == s;
    } else {
      SumSplit(s, n + 1);
      assert s[..n + 1] == s[..n] + [s[n]];
      SumSnoc(s[..n], s[n]);
    }
  }

  /** Entries of the vector that cannot be read from user memory are `None`. */
  function CheckIov(u: Option<UserIoVec>): Result<IoVec, Errno> {
    if u.None? then Err(EFAULT)
    else if u.value.len < 0 then Err(EINVAL)
    else Ok(IoVec(u.value.base, u.value.len))
  }

  /** The buffer lengths, each cut to what the ones before it left of `budget`. */
  function Clip(lens: seq<nat>, budget: nat): (r: seq<nat>)
    ensures |r| == |lens| && Sum(r) <= budget
  {
    if lens == [] then []
    else
      var n := Min(lens[0], budget);
      [n] + Clip(lens[1..], budget - n)
  }

  /** Cutting keeps a prefix of the bytes: nothing is cut while the sum is within the budget. */
  lemma {:induction false} ClipIsPrefix(lens: seq<nat>, budget: nat)
    ensures Sum(Clip(lens, budget)) == Min(Sum(lens), budget)
    ensures Sum(lens) <= budget ==> Clip(lens, budget) == lens
    ensures forall i :: 0 <= i < |lens| && Clip(lens, budget)[i] < lens[i] ==>
              Sum(Clip(lens, budget)[..i + 1]) == budget
  {
    if lens != [] {
      var n := Min(lens[0], budget);
      var clip, rest := Clip(lens, budget), Clip(lens[1..], budget - n);
      ClipIsPrefix(lens[1..], budget - n);
      assert Sum(clip) == n + Sum(rest) by { assert clip[1..] == rest; }
      forall i | 0 <= i < |lens| && clip[i] < lens[i] ensures Sum(clip[..i + 1]) == budget {
        if i == 0 {
          assert clip[..1] == [n] && Sum([n]) == n + Sum([]);
        } else {
          assert clip[..i + 1] == [n] + rest[..i] && ([n] + rest[..i])[1..] == rest[..i];
        }
      }
    }
  }

  function Prefixed<T>(t: T, rest: Result<seq<T>, Errno>): Result<seq<T>, Errno> {
    match rest
    case Err(e) => Err(e)
    case Ok(ts) => Ok([t] + ts)
  }

  /** The result for a whole vector, first error first. */
  function Converted<T>(iovs: seq<Option<UserIoVec>>, budget: nat, convert: IoVec -> Result<T, Errno>):
    Result<seq<T>, Errno>
  {
    if iovs == [] then Ok([])
    else
      match CheckIov(iovs[0])
      case Err(e) => Err(e)
      case Ok(v) =>
        var iov := v.(len := Min(v.len, budget));
        if IsEmpty(iov) then Converted(iovs[1..], budget - iov.len, convert)
        else
          match convert(iov)
          case Err(e) => Err(e)
          case Ok(t) => Prefixed(t, Converted(iovs[1..], budget - iov.len, convert))
  }

  function Joined<T>(a: seq<T>, rest: Result<seq<T>, Errno>): Result<seq<T>, Errno> {
    match rest
    case Err(e) => Err(e)
    case Ok(ts) => Ok(a + ts)
  }

  lemma JoinedPrefixed<T>(a: seq<T>, t: T, rest: Result<seq<T>, Errno>)
    ensures Joined(a, Prefixed(t, rest)) == Joined(a + [t], rest)
  {
    if rest.Ok? { assert a + ([t] + rest.value) == a + [t] + rest.value; }
  }

  method CopyIovsAndConvert<T>(iovs: seq<Option<UserIoVec>>, convert: IoVec -> Result<T, Errno>)
    returns (r: Result<seq<T>, Errno>)
    ensures r == if |iovs| > MAX_IO_VECTOR_LENGTH then Err(EINVAL)
                 else Converted(iovs, MAX_TOTAL_IOV_BYTES, convert)
  {
    if |iovs| > MAX_IO_VECTOR_LENGTH {
      return Err(EINVAL);
    }
    var v: seq<T>, maxLen: nat := [], MAX_TOTAL_IOV_BYTES;
    ghost var whole := Converted(iovs, MAX_TOTAL_IOV_BYTES, convert);
    assert iovs[0..] == iovs && (whole.Ok? ==> [] + whole.value == whole.value);
    for idx := 0 to |iovs|
      invariant whole == Joined(v, Converted(iovs[idx..], maxLen, convert))
    {
      assert iovs[idx..][1..] == iovs[idx + 1..] && iovs[idx..][0] == iovs[idx];
      var checked := CheckIov(iovs[idx]);
      if checked.Err? {
        return Err(checked.error);
      }
      var iov := checked.value;
      if iov.len > maxLen {
        iov := iov.(len := maxLen);
      }
      maxLen := maxLen - iov.len;
      if IsEmpty(iov) {
        continue;
      }
      var converted := convert(iov);
      if converted.Err? {
        return Err(converted.error);
      }
      JoinedPrefixed(v, converted.value, Converted(iovs[idx + 1..], maxLen, convert));
      v := v + [converted.value];
    }
    assert v + [] == v;
    r := Ok(v);
  }

  // ----- The buffers handed out -----

  /** The buffers of the vector with their lengths cut to the budget. */
  function Clipped(iovs: seq<Option<UserIoVec>>, budget: nat): (r: seq<IoVec>)
    requires forall u :: u in iovs ==> CheckIov(u).Ok?
    ensures |r| == |iovs|
  {
    if iovs == [] then []
    else
      var v := CheckIov(iovs[0]).value;
      var iov := v.(len := Min(v.len, budget));
      [iov] + Clipped(iovs[1..], budget - iov.len)
  }

  function NonEmpty(vs: seq<IoVec>): seq<IoVec> {
    if vs == [] then []
    else (if IsEmpty(vs[0]) then [] else [vs[0]]) + NonEmpty(vs[1..])
  }

  function Lens(vs: seq<IoVec>): (r: seq<nat>)
    ensures |r| == |vs|
  {
    seq(|vs|, i requires 0 <= i < |vs| => vs[i].len)
  }

  function UserLens(iovs: seq<Option<UserIoVec>>): (r: seq<nat>)
    requires forall u :: u in iovs ==> CheckIov(u).Ok?
    ensures |r| == |iovs|
  {
    seq(|iovs|, i requires 0 <= i < |iovs| => CheckIov(iovs[i]).value.len)
  }

  lemma LensCons(v: IoVec, vs: seq<IoVec>)
    ensures Lens([v] + vs) == [v.len] + Lens(vs)
  {
  }

  lemma UserLensCons(iovs: seq<Option<UserIoVec>>)
    requires iovs != [] && forall u :: u in iovs ==> CheckIov(u).Ok?
    ensures UserLens(iovs)[0] == CheckIov(iovs[0]).value.len && UserLens(iovs)[1..] == UserLens(iovs[1..])
  {
  }

  lemma {:induction false} ClippedLens(iovs: seq<Option<UserIoVec>>, budget: nat)
    requires forall u :: u in iovs ==> CheckIov(u).Ok?
    ensures Lens(Clipped(iovs, budget)) == Clip(UserLens(iovs), budget)
  {
    if iovs != [] {
      var v := CheckIov(iovs[0]).value;
      var n := Min(v.len, budget);
      ClippedLens(iovs[1..], budget - n);
      UserLensCons(iovs);
      LensCons(v.(len := n), Clipped(iovs[1..], budget - n));
    }
  }

  lemma {:induction false} NonEmptyLens(vs: seq<IoVec>)
    ensures Sum(Lens(NonEmpty(vs))) <= Sum(Lens(vs))
    ensures forall v :: v in NonEmpty(vs) ==> v in vs && !IsEmpty(v)
  {
    if vs != [] {
      NonEmptyLens(vs[1..]);
      assert Lens(vs)[1..] == Lens(vs[1..]);
      var kept := NonEmpty(vs);
      if !IsEmpty(vs[0]) {
        assert kept[1..] == NonEmpty(vs[1..]) && Lens(kept)[1..] == Lens(kept[1..]);
      } else {
        assert kept == NonEmpty(vs[1..]);
      }
    }
  }

  /** Exactly the buffers without a base or a length are left out; the others keep their order. */
  lemma {:induction false} NonEmptyIsFilter(vs: seq<IoVec>, v: IoVec)
    ensures NonEmpty(vs + [v]) == NonEmpty(vs) + (if v.base == 0 || v.len == 0 then [] else [v])
  {
    var last := if v.base == 0 || v.len == 0 then [] else [v];
    if vs == [] {
      assert vs + [v] == [v] && [v][1..] == [];
    } else {
      HeadOfConcat(vs, [v]);
      NonEmptyIsFilter(vs[1..], v);
      Assoc(if IsEmpty(vs[0]) then [] else [vs[0]], NonEmpty(vs[1..]), last);
    }
  }

  /** A successful call converts exactly the non-empty buffers of the cut vector, in order. */
  lemma {:induction false} ConvertedKeeps<T>(
    iovs: seq<Option<UserIoVec>>, budget: nat, convert: IoVec -> Result<T, Errno>)
    requires Converted(iovs, budget, convert).Ok?
    ensures forall u :: u in iovs ==> CheckIov(u).Ok?
    ensures var ts, kept := Converted(iovs, budget, convert).value, NonEmpty(Clipped(iovs, budget));
            |ts| == |kept| && forall i :: 0 <= i < |ts| ==> convert(kept[i]) == Ok(ts[i])
  {
    if iovs != [] {
      var v := CheckIov(iovs[0]).value;
      var iov := v.(len := Min(v.len, budget));
      ConvertedKeeps(iovs[1..], budget - iov.len, convert);
      var kept, rest := NonEmpty(Clipped(iovs, budget)), NonEmpty(Clipped(iovs[1..], budget - iov.len));
      assert Clipped(iovs, budget)[1..] == Clipped(iovs[1..], budget - iov.len);
      assert kept == (if IsEmpty(iov) then [] else [iov]) + rest;
    }
  }

  /** The buffers used are non-empty, and together within the limit. */
  lemma BuffersWithinLimit(iovs: seq<Option<UserIoVec>>, budget: nat)
    requires forall u :: u in iovs ==> CheckIov(u).Ok?
    ensures var kept := NonEmpty(Clipped(iovs, budget));
            && (forall v :: v in kept ==> !IsEmpty(v))
            && Sum(Lens(kept)) <= Min(Sum(UserLens(iovs)), budget)
  {
    NonEmptyLens(Clipped(iovs, budget));
    ClippedLens(iovs, budget);
    ClipIsPrefix(UserLens(iovs), budget);
  }

  // ----- Which buffer is used, and which error is reported -----

  /** The length of an entry as the user gave it. */
  function GivenLen(u: Option<UserIoVec>): nat {
    if u.Some? && u.value.len >= 0 then u.value.len else 0
  }

  function GivenBefore(iovs: seq<Option<UserIoVec>>, i: nat): nat
    requires i <= |iovs|
  {
    if i == 0 then 0 else GivenBefore(iovs, i - 1) + GivenLen(iovs[i - 1])
  }

  /** What the entries before leave of `budget` for entry `i`. */
  function CutLen(iovs: seq<Option<UserIoVec>>, i: nat, budget: nat): nat
    requires i < |iovs|
  {
    Min(GivenLen(iovs[i]), budget - Min(budget, GivenBefore(iovs, i)))
  }

  /** Entry `i` can be read, has no negative length, and its buffer is empty or can be converted. */
  ghost predicate PassesAt<T>(
    iovs: seq<Option<UserIoVec>>, i: nat, budget: nat, convert: IoVec -> Result<T, Errno>)
    requires i < |iovs|
  {
    && iovs[i].Some? && iovs[i].value.len >= 0
    && var base, n := iovs[i].value.base, CutLen(iovs, i, budget);
       base == 0 || n == 0 || convert(IoVec(base, n)).Ok?
  }

  /** Entry `i` fails with `e`. */
  ghost predicate FailsAt<T>(
    iovs: seq<Option<UserIoVec>>, i: nat, budget: nat, convert: IoVec -> Result<T, Errno>, e: Errno)
    requires i < |iovs|
  {
    if iovs[i].None? then e == EFAULT
    else if iovs[i].value.len < 0 then e == EINVAL
    else
      var base, n := iovs[i].value.base, CutLen(iovs, i, budget);
      base != 0 && n != 0 && convert(IoVec(base, n)) == Err(e)
  }

  lemma {:induction false} GivenBeforeTail(iovs: seq<Option<UserIoVec>>, i: nat)
    requires i < |iovs|
    ensures GivenBefore(iovs, i + 1) == GivenLen(iovs[0]) + GivenBefore(iovs[1..], i)
  {
    if i > 0 { GivenBeforeTail(iovs, i - 1); }
  }

  lemma CutLenTail(iovs: seq<Option<UserIoVec>>, i: nat, budget: nat)
    requires i + 1 < |iovs|
    ensures CutLen(iovs, i + 1, budget) == CutLen(iovs[1..], i, budget - Min(GivenLen(iovs[0]), budget))
  {
    GivenBeforeTail(iovs, i);
  }

  /** Buffer `i` of the cut vector is where the user said, and as long as the ones before it allow. */
  lemma {:induction false} ClippedAt(iovs: seq<Option<UserIoVec>>, budget: nat, i: nat)
    requires i < |iovs| && forall u :: u in iovs ==> CheckIov(u).Ok?
    ensures iovs[i] in iovs && Clipped(iovs, budget)[i] == IoVec(iovs[i].value.base, CutLen(iovs, i, budget))
  {
    if i > 0 {
      CutLenTail(iovs, i - 1, budget);
      ClippedAt(iovs[1..], budget - Min(GivenLen(iovs[0]), budget), i - 1);
    }
  }

  lemma PassesTail<T>(iovs: seq<Option<UserIoVec>>, i: nat, budget: nat, convert: IoVec -> Result<T, Errno>)
    requires i + 1 < |iovs|
    ensures var rest := budget - Min(GivenLen(iovs[0]), budget);
            && (PassesAt(iovs, i + 1, budget, convert) <==> PassesAt(iovs[1..], i, rest, convert))
            && (forall e :: FailsAt(iovs, i + 1, budget, convert, e) <==> FailsAt(iovs[1..], i, rest, convert, e))
  {
    CutLenTail(iovs, i, budget);
  }

  /** The conversion succeeds if every entry passes, and reports the error of the first one that does not. */
  lemma {:induction false} FirstFailureDecides<T>(
    iovs: seq<Option<UserIoVec>>, budget: nat, convert: IoVec -> Result<T, Errno>, n: nat)
    requires n <= |iovs| && forall i :: 0 <= i < n ==> PassesAt(iovs, i, budget, convert)
    ensures n == |iovs| ==> Converted(iovs, budget, convert).Ok?
    ensures n < |iovs| ==>
              forall e :: FailsAt(iovs, n, budget, convert, e) ==> Converted(iovs, budget, convert) == Err(e)
    decreases |iovs|
  {
    if iovs != [] && n > 0 {
      assert PassesAt(iovs, 0, budget, convert);
      var rest := budget - Min(GivenLen(iovs[0]), budget);
      forall i | 0 <= i < n - 1 ensures PassesAt(iovs[1..], i, rest, convert) {
        PassesTail(iovs, i, budget, convert);
        assert PassesAt(iovs, i + 1, budget, convert);
      }
      if n < |iovs| { PassesTail(iovs, n - 1, budget, convert); }
      FirstFailureDecides(iovs[1..], rest, convert, n - 1);
    }
  }

  // ----- The vectored read -----

  /** What a `read_at` answers: some bytes, at most those asked for and there, or an error. */
  datatype Answer = Got(n: nat) | Failed(error: Errno)

  /** The answer to read number `i`; a read beyond those given finds the end of the file. */
  function AnswerTo(answers: seq<Answer>, i: nat): Answer {
    if i < |answers| then answers[i] else Got(0)
  }

  /** What `read_at` delivers at `off` into room `avail`. */
  function Delivered(file: seq<Byte>, off: nat, avail: nat, n: nat): (d: seq<Byte>)
    ensures |d| <= avail && |d| <= n
  {
    if off >= |file| then []
    else file[off..off + Min(n, Min(avail, |file| - off))]
  }

  /** `n` bytes of the file from `off`; none beyond its end. */
  function Stretch(file: seq<Byte>, off: nat, n: nat): (d: seq<Byte>)
    requires n == 0 || off + n <= |file|
    ensures |d| == n
  {
    if n == 0 then [] else file[off..off + n]
  }

  /** Buffer `j` holds what its `read_at` delivered, where the file goes on when those before are full. */
  ghost predicate Gave(rooms: seq<nat>, answers: seq<Answer>, file: seq<Byte>, offset: nat, j: nat, out: seq<Byte>) {
    && j < |rooms| && AnswerTo(answers, j).Got?
    && out == Delivered(file, offset + Sum(rooms[..j]), rooms[j], AnswerTo(answers, j).n)
  }

  ghost predicate Full(rooms: seq<nat>, outs: seq<seq<Byte>>, n: nat) {
    n <= |outs| && n <= |rooms| && forall j {:trigger outs[j]} :: 0 <= j < n ==> |outs[j]| == rooms[j]
  }

  /** `outs[j]` is in buffer `j`; the buffers from `|outs|` on are untouched, those before the last one full. */
  ghost predicate Laid(rooms: seq<nat>, answers: seq<Answer>, file: seq<Byte>, offset: nat, outs: seq<seq<Byte>>) {
    && |outs| <= |rooms|
    && (forall j {:trigger outs[j]} :: 0 <= j < |outs| ==> Gave(rooms, answers, file, offset, j, outs[j]))
    && (outs != [] ==> Full(rooms, outs, |outs| - 1))
  }

  /** All buffers were filled, the last one touched was not, or the next read failed. */
  ghost predicate Stopped(rooms: seq<nat>, answers: seq<Answer>, outs: seq<seq<Byte>>)
    requires |outs| <= |rooms|
  {
    || |outs| == |rooms|
    || (outs != [] && |outs[|outs| - 1]| < rooms[|outs| - 1])
    || AnswerTo(answers, |outs|).Failed?
  }

  /** The buffers together hold the `n` bytes of the file from `offset`. */
  ghost predicate Contiguous(file: seq<Byte>, offset: nat, n: nat, outs: seq<seq<Byte>>) {
    (n == 0 || offset + n <= |file|) && Concat(outs) == Stretch(file, offset, n)
  }

  /** The call delivers one contiguous stretch of the file, of the returned length. */
  ghost predicate ReadOutcome(
    rooms: seq<nat>, answers: seq<Answer>, file: seq<Byte>, offset: nat, r: Result<nat, Errno>, outs: seq<seq<Byte>>)
  {
    && Laid(rooms, answers, file, offset, outs)
    && Stopped(rooms, answers, outs)
    && match r
       case Ok(n) => Contiguous(file, offset, n, outs)
       case Err(e) => rooms != [] && outs == [] && AnswerTo(answers, 0) == Failed(e)
  }

  /** The loop before buffer `i`: all buffers before it are full. */
  ghost predicate Reading(
    rooms: seq<nat>, answers: seq<Answer>, file: seq<Byte>, offset: nat, total: nat, outs: seq<seq<Byte>>)
  {
    && Laid(rooms, answers, file, offset, outs)
    && Full(rooms, outs, |outs|)
    && total == Sum(rooms[..|outs|])
    && Contiguous(file, offset, total, outs)
  }

  lemma StretchGrows(file: seq<Byte>, off: nat, total: nat, avail: nat, k: nat)
    requires total == 0 || off + total <= |file|
    ensures var d := Delivered(file, off + total, avail, k);
            && (total + |d| == 0 || off + total + |d| <= |file|)
            && Stretch(file, off, total) + d == Stretch(file, off, total + |d|)
  {
  }

  lemma LaidStep(
    rooms: seq<nat>, answers: seq<Answer>, file: seq<Byte>, offset: nat, outs: seq<seq<Byte>>, d: seq<Byte>)
    requires Laid(rooms, answers, file, offset, outs) && |outs| < |rooms| && Full(rooms, outs, |outs|)
    requires Gave(rooms, answers, file, offset, |outs|, d)
    ensures Laid(rooms, answers, file, offset, outs + [d])
  {
  }

  lemma ContiguousStep(file: seq<Byte>, offset: nat, total: nat, outs: seq<seq<Byte>>, d: seq<Byte>, avail: nat, k: nat)
    requires Contiguous(file, offset, total, outs) && d == Delivered(file, offset + total, avail, k)
    ensures Contiguous(file, offset, total + |d|, outs + [d])
  {
    StretchGrows(file, offset, total, avail, k);
    ConcatSnoc(outs, d);
  }

  lemma SumNext(rooms: seq<nat>, i: nat)
    requires i < |rooms|
    ensures Sum(rooms[..i]) + rooms[i] == Sum(rooms[..i + 1])
  {
    TakeSnoc(rooms, i);
    SumSnoc(rooms[..i], rooms[i]);
  }

  lemma FilledStep(rooms: seq<nat>, outs: seq<seq<Byte>>, d: seq<Byte>)
    requires Full(rooms, outs, |outs|) && |outs| < |rooms| && |d| == rooms[|outs|]
    ensures Full(rooms, outs + [d], |outs + [d]|)
    ensures Sum(rooms[..|outs + [d]|]) == Sum(rooms[..|outs|]) + |d|
  {
    SumNext(rooms, |outs|);
  }

  /** A read that leaves room ends the call. */
  lemma ShortRead(
    rooms: seq<nat>, answers: seq<Answer>, file: seq<Byte>, offset: nat, total: nat, outs: seq<seq<Byte>>, d: seq<Byte>)
    requires Reading(rooms, answers, file, offset, total, outs) && |outs| < |rooms| && AnswerTo(answers, |outs|).Got?
    requires d == Delivered(file, offset + total, rooms[|outs|], AnswerTo(answers, |outs|).n) && |d| < rooms[|outs|]
    ensures ReadOutcome(rooms, answers, file, offset, Ok(total + |d|), outs + [d])
  {
    LaidStep(rooms, answers, file, offset, outs, d);
    ContiguousStep(file, offset, total, outs, d, rooms[|outs|], AnswerTo(answers, |outs|).n);
  }

  lemma FullRead(
    rooms: seq<nat>, answers: seq<Answer>, file: seq<Byte>, offset: nat, total: nat, outs: seq<seq<Byte>>, d: seq<Byte>)
    requires Reading(rooms, answers, file, offset, total, outs) && |outs| < |rooms| && AnswerTo(answers, |outs|).Got?
    requires d == Delivered(file, offset + total, rooms[|outs|], AnswerTo(answers, |outs|).n) && |d| == rooms[|outs|]
    ensures Reading(rooms, answers, file, offset, total + |d|, outs + [d])
  {
    LaidStep(rooms, answers, file, offset, outs, d);
    ContiguousStep(file, offset, total, outs, d, rooms[|outs|], AnswerTo(answers, |outs|).n);
    FilledStep(rooms, outs, d);
  }

  /** A failing read ends the call; it is reported only when nothing was read before. */
  lemma FailedRead(
    rooms: seq<nat>, answers: seq<Answer>, file: seq<Byte>, offset: nat, total: nat, outs: seq<seq<Byte>>)
    requires Reading(rooms, answers, file, offset, total, outs) && |outs| < |rooms| && AnswerTo(answers, |outs|).Failed?
    ensures ReadOutcome(rooms, answers, file, offset, Ok(total), outs)
    ensures outs == [] ==> ReadOutcome(rooms, answers, file, offset, Err(AnswerTo(answers, |outs|).error), outs)
  {
  }

  lemma AllRead(rooms: seq<nat>, answers: seq<Answer>, file: seq<Byte>, offset: nat, total: nat, outs: seq<seq<Byte>>)
    requires Reading(rooms, answers, file, offset, total, outs) && |outs| == |rooms|
    ensures ReadOutcome(rooms, answers, file, offset, Ok(total), outs)
  {
  }

  /** The loop of the vectored read over non-empty writers. */
  method ReadIntoWriters(rooms: seq<nat>, answers: seq<Answer>, file: seq<Byte>, offset: nat)
    returns (r: Result<nat, Errno>, outs: seq<seq<Byte>>)
    requires forall i :: 0 <= i < |rooms| ==> rooms[i] > 0
    ensures ReadOutcome(rooms, answers, file, offset, r, outs)
  {
    var totalLen: nat, curOffset: nat := 0, offset;
    outs := [];
    for i := 0 to |rooms|
      invariant |outs| == i && Reading(rooms, answers, file, offset, totalLen, outs)
      invariant curOffset == offset + totalLen && (i > 0 <==> totalLen > 0)
    {
      var reply := AnswerTo(answers, i);
      if reply.Failed? {
        FailedRead(rooms, answers, file, offset, totalLen, outs);
        if totalLen > 0 {
          return Ok(totalLen), outs;
        }
        return Err(reply.error), outs;
      }
      var read := Delivered(file, curOffset, rooms[i], reply.n);
      if |read| < rooms[i] {
        ShortRead(rooms, answers, file, offset, totalLen, outs, read);
        return Ok(totalLen + |read|), outs + [read];
      }
      FullRead(rooms, answers, file, offset, totalLen, outs, read);
      outs := outs + [read];
      totalLen, curOffset := totalLen + |read|, curOffset + |read|;
    }
    AllRead(rooms, answers, file, offset, totalLen, outs);
    r := Ok(totalLen);
  }

  lemma {:induction false} ConcatWithin(outs: seq<seq<Byte>>, rooms: seq<nat>)
    requires |outs| <= |rooms| && forall j :: 0 <= j < |outs| ==> |outs[j]| <= rooms[j]
    ensures |Concat(outs)| <= Sum(rooms)
  {
    if outs != [] { ConcatWithin(outs[1..], rooms[1..]); }
  }

  /** Turning a buffer into a writer fails when the buffer lies outside of user space. */
  function ToRoom(accessible: IoVec -> bool): IoVec -> Result<nat, Errno> {
    (v: IoVec) => if accessible(v) then Ok(v.len) else Err(EFAULT)
  }

  /** The room of the writers made from a user's vector. */
  function WriterRooms(iovs: seq<Option<UserIoVec>>, accessible: IoVec -> bool): Result<seq<nat>, Errno> {
    if |iovs| > MAX_IO_VECTOR_LENGTH then Err(EINVAL)
    else Converted(iovs, MAX_TOTAL_IOV_BYTES, ToRoom(accessible))
  }

  /** No writer is without room, and all rooms together stay within the limit. */
  lemma WriterRoomsOk(iovs: seq<Option<UserIoVec>>, accessible: IoVec -> bool)
    requires WriterRooms(iovs, accessible).Ok?
    ensures var rooms := WriterRooms(iovs, accessible).value;
            (forall i :: 0 <= i < |rooms| ==> rooms[i] > 0) && Sum(rooms) <= MAX_TOTAL_IOV_BYTES
  {
    ConvertedKeeps(iovs, MAX_TOTAL_IOV_BYTES, ToRoom(accessible));
    BuffersWithinLimit(iovs, MAX_TOTAL_IOV_BYTES);
    var rooms, kept := WriterRooms(iovs, accessible).value, NonEmpty(Clipped(iovs, MAX_TOTAL_IOV_BYTES));
    forall i | 0 <= i < |rooms| ensures rooms[i] == Lens(kept)[i] > 0 {
      assert ToRoom(accessible)(kept[i]) == Ok(rooms[i]) && kept[i] in kept;
    }
    assert rooms == Lens(kept);
  }

  lemma RoomsAreLens(iovs: seq<Option<UserIoVec>>, accessible: IoVec -> bool)
    requires WriterRooms(iovs, accessible).Ok?
    ensures forall u :: u in iovs ==> CheckIov(u).Ok?
    ensures WriterRooms(iovs, accessible).value == Lens(NonEmpty(Clipped(iovs, MAX_TOTAL_IOV_BYTES)))
  {
    ConvertedKeeps(iovs, MAX_TOTAL_IOV_BYTES, ToRoom(accessible));
    var rooms, kept := WriterRooms(iovs, accessible).value, NonEmpty(Clipped(iovs, MAX_TOTAL_IOV_BYTES));
    forall i | 0 <= i < |rooms| ensures rooms[i] == Lens(kept)[i] {
      assert ToRoom(accessible)(kept[i]) == Ok(rooms[i]);
    }
  }

  /** Entry `i` can be read, has no negative length, and its cut buffer is empty or lies in user space. */
  ghost predicate Usable(iovs: seq<Option<UserIoVec>>, i: nat, accessible: IoVec -> bool)
    requires i < |iovs|
  {
    && iovs[i].Some? && iovs[i].value.len >= 0
    && var base, n := iovs[i].value.base, CutLen(iovs, i, MAX_TOTAL_IOV_BYTES);
       base == 0 || n == 0 || accessible(IoVec(base, n))
  }

  /** A vector gives writers for exactly its non-empty cut buffers, or the error of the first unusable entry. */
  lemma WriterRoomsExact(iovs: seq<Option<UserIoVec>>, accessible: IoVec -> bool, n: nat)
    requires n <= |iovs| && forall i :: 0 <= i < n ==> Usable(iovs, i, accessible)
    ensures |iovs| > 1024 ==> WriterRooms(iovs, accessible) == Err(EINVAL)
    ensures |iovs| <= 1024 && n == |iovs| ==>
              && (forall u :: u in iovs ==> CheckIov(u).Ok?)
              && WriterRooms(iovs, accessible) == Ok(Lens(NonEmpty(Clipped(iovs, MAX_TOTAL_IOV_BYTES))))
    ensures |iovs| <= 1024 && n < |iovs| && !Usable(iovs, n, accessible) ==>
              WriterRooms(iovs, accessible)
              == Err(if iovs[n].Some? && iovs[n].value.len < 0 then EINVAL else EFAULT)
  {
    var convert := ToRoom(accessible);
    forall i | 0 <= i < n ensures PassesAt(iovs, i, MAX_TOTAL_IOV_BYTES, convert) {
      assert Usable(iovs, i, accessible);
    }
    FirstFailureDecides(iovs, MAX_TOTAL_IOV_BYTES, convert, n);
    if |iovs| <= 1024 && n == |iovs| {
      RoomsAreLens(iovs, accessible);
    } else if |iovs| <= 1024 && !Usable(iovs, n, accessible) {
      assert FailsAt(iovs, n, MAX_TOTAL_IOV_BYTES, convert,
                     if iovs[n].Some? && iovs[n].value.len < 0 then EINVAL else EFAULT);
    }
  }

  lemma {:induction false} LaidLength(rooms: seq<nat>, outs: seq<seq<Byte>>, n: nat)
    requires Full(rooms, outs, n)
    ensures |Concat(outs[..n])| == Sum(rooms[..n])
    decreases n
  {
    if n > 0 {
      LaidLength(rooms, outs, n - 1);
      SumNext(rooms, n - 1);
      TakeSnoc(outs, n - 1);
      ConcatSnoc(outs[..n - 1], outs[n - 1]);
    }
  }

  lemma OutcomeLength(rooms: seq<nat>, outs: seq<seq<Byte>>)
    requires outs != [] && |outs| <= |rooms| && Full(rooms, outs, |outs| - 1)
    ensures var k := |outs| - 1;
            && |Concat(outs)| == Sum(rooms[..k]) + |outs[k]|
            && Sum(rooms) == Sum(rooms[..k]) + rooms[k] + Sum(rooms[k + 1..])
  {
    var k := |outs| - 1;
    LaidLength(rooms, outs, k);
    TakeSnoc(outs, k);
    ConcatSnoc(outs[..k], outs[k]);
    assert outs[..|outs|] == outs;
    SumNext(rooms, k);
    SumSplit(rooms, k + 1);
  }

  /** The last of several reads, `front` bytes behind `offset`, ends the call with `front + d` bytes. */
  lemma LastRead(offset: nat, size: nat, front: nat, room: nat, rest: nat, d: nat)
    requires front + d == 0 || offset + front + d <= size
    requires d == if offset + front >= size then 0 else Min(room, size - (offset + front))
    requires room > 0 && (rest == 0 || d < room)
    ensures front + d == Min(front + room + rest, size - Min(offset, size))
  {
  }

  /** The last read of a call that stopped although every `read_at` gave all it could. */
  lemma StoppedAtLast(rooms: seq<nat>, answers: seq<Answer>, file: seq<Byte>, offset: nat, outs: seq<seq<Byte>>)
    requires Laid(rooms, answers, file, offset, outs) && Stopped(rooms, answers, outs) && outs != []
    requires forall i :: 0 <= i < |rooms| ==> AnswerTo(answers, i).Got? && AnswerTo(answers, i).n >= rooms[i] > 0
    ensures var k := |outs| - 1;
            var off := offset + Sum(rooms[..k]);
            && |outs[k]| == (if off >= |file| then 0 else Min(rooms[k], |file| - off))
            && (Sum(rooms[k + 1..]) == 0 || |outs[k]| < rooms[k])
  {
    var k := |outs| - 1;
    assert Gave(rooms, answers, file, offset, k, outs[k]);
    assert k + 1 == |rooms| ==> rooms[k + 1..] == [];
  }

  lemma FullAnswersCount(
    rooms: seq<nat>, answers: seq<Answer>, file: seq<Byte>, offset: nat, outs: seq<seq<Byte>>)
    requires Laid(rooms, answers, file, offset, outs) && Stopped(rooms, answers, outs)
    requires |Concat(outs)| == 0 || offset + |Concat(outs)| <= |file|
    requires forall i :: 0 <= i < |rooms| ==> AnswerTo(answers, i).Got? && AnswerTo(answers, i).n >= rooms[i] > 0
    ensures |Concat(outs)| == Min(Sum(rooms), |file| - Min(offset, |file|))
  {
    if outs == [] {
      assert rooms == [] && Concat(outs) == [];
    } else {
      var k := |outs| - 1;
      StoppedAtLast(rooms, answers, file, offset, outs);
      OutcomeLength(rooms, outs);
      LastRead(offset, |file|, Sum(rooms[..k]), rooms[k], Sum(rooms[k + 1..]), |outs[k]|);
    }
  }

  /** If every `read_at` gives all it can, the call fills the buffers up to the end of the file. */
  lemma FullAnswersFill(
    rooms: seq<nat>, answers: seq<Answer>, file: seq<Byte>, offset: nat, r: Result<nat, Errno>, outs: seq<seq<Byte>>)
    requires ReadOutcome(rooms, answers, file, offset, r, outs)
    requires forall i :: 0 <= i < |rooms| ==> AnswerTo(answers, i).Got? && AnswerTo(answers, i).n >= rooms[i] > 0
    ensures r == Ok(Min(Sum(rooms), |file| - Min(offset, |file|)))
  {
    assert r.Ok? && |Concat(outs)| == r.value;
    FullAnswersCount(rooms, answers, file, offset, outs);
  }

  /** `file` is the file behind the descriptor, if there is one. */
  method DoSysPreadv(
    file: Option<seq<Byte>>, iovs: seq<Option<UserIoVec>>, accessible: IoVec -> bool, offset: I64, answers: seq<Answer>)
    returns (r: Result<nat, Errno>, outs: seq<seq<Byte>>)
    ensures offset < 0 ==> r == Err(EINVAL) && outs == []
    ensures offset >= 0 && file.None? ==> r == Err(EBADF) && outs == []
    ensures offset >= 0 && file.Some? && iovs == [] ==> r == Ok(0) && outs == []
    ensures offset >= 0 && file.Some? && iovs != [] ==>
              match WriterRooms(iovs, accessible)
              case Err(e) => r == Err(e) && outs == []
              case Ok(rooms) => ReadOutcome(rooms, answers, file.value, offset, r, outs)
    ensures r.Ok? ==> offset + r.value < 0x1_0000_0000_0000_0000
  {
    if offset < 0 {
      return Err(EINVAL), [];
    }
    if file.None? {
      return Err(EBADF), [];
    }
    if iovs == [] {
      return Ok(0), [];
    }
    var rooms := CopyIovsAndConvert(iovs, ToRoom(accessible));
    if rooms.Err? {
      return Err(rooms.error), [];
    }
    WriterRoomsOk(iovs, accessible);
    r, outs := ReadIntoWriters(rooms.value, answers, file.value, offset);
    ConcatWithin(outs, rooms.value);
  }
}
