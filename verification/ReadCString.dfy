/**
  Reading C strings from user memory: the reader that scans a word at a time delivers exactly what
  a plain byte-at-a-time scan of the same memory delivers.

  A reader is the address of its cursor and its remaining cells; a cell that cannot be read is
  `None`.  A mutable reader or buffer argument is an in-parameter and an out-parameter.
 */
module ReadCString {
  import opened BitMasks
  import opened Sequences
  import opened UserBuffers
  import opened Words
  import opened Wrappers

  datatype Outcome = Found | Ended | Fault

  /** What a scan takes from the cells, and why it stops. */
  datatype Scan = Scan(taken: seq<Byte>, outcome: Outcome)

  /** The reference: byte after byte, at most `room` of them, up to and including a nul. */
  function ByteScan(cells: seq<Option<Byte>>, room: nat): (s: Scan)
    ensures |s.taken| <= room && |s.taken| <= |cells|
  {
    if room == 0 || cells == [] then Scan([], Ended)
    else if cells[0].None? then Scan([], Fault)
    else if cells[0].value == 0 then Scan([0], Found)
    else
      var rest := ByteScan(cells[1..], room - 1);
      Scan([cells[0].value] + rest.taken, rest.outcome)
  }

  predicate NulFree(s: seq<Byte>) { 0 !in s }

  /** `from_vec_with_nul` accepts: one nul, at the end. */
  predicate EndsInSingleNul(s: seq<Byte>) { s != [] && s[|s| - 1] == 0 && NulFree(s[..|s| - 1]) }

  /** What a scan means, without recursion: the longest readable prefix up to a nul or the limit. */
  ghost predicate ScanMeans(cells: seq<Option<Byte>>, room: nat, s: Scan) {
    var n := |s.taken|;
    && n <= Min(room, |cells|) && Readable(cells[..n]) && s.taken == Values(cells[..n])
    && match s.outcome {
         case Found => EndsInSingleNul(s.taken)
         case Ended => NulFree(s.taken) && n == Min(room, |cells|)
         case Fault => NulFree(s.taken) && n < Min(room, |cells|) && cells[n].None?
       }
  }

  lemma MeaningCons(cells: seq<Option<Byte>>, room: nat, rest: Scan)
    requires room > 0 && cells != [] && cells[0].Some? && cells[0].value != 0
    requires ScanMeans(cells[1..], room - 1, rest)
    ensures ScanMeans(cells, room, Scan([cells[0].value] + rest.taken, rest.outcome))
  {
    var n := |rest.taken|;
    var taken := [cells[0].value] + rest.taken;
    assert cells[..n + 1] == [cells[0]] + cells[1..][..n];
    if rest.outcome.Found? {
      assert taken[..n] == [cells[0].value] + rest.taken[..n - 1];
    }
  }

  lemma {:induction false} ScanMeaning(cells: seq<Option<Byte>>, room: nat)
    ensures ScanMeans(cells, room, ByteScan(cells, room))
  {
    if room != 0 && cells != [] && cells[0].Some? && cells[0].value != 0 {
      ScanMeaning(cells[1..], room - 1);
      MeaningCons(cells, room, ByteScan(cells[1..], room - 1));
    }
  }

  lemma ValuesCons(cells: seq<Option<Byte>>, n: nat)
    requires 0 < n <= |cells| && Readable(cells[..n])
    ensures cells[0].Some? && Readable(cells[1..][..n - 1])
    ensures Values(cells[..n]) == [cells[0].value] + Values(cells[1..][..n - 1])
  {
    assert cells[1..][..n - 1] == cells[..n][1..];
  }

  /** Nul-free readable cells in front are taken, and the scan goes on behind them. */
  lemma {:induction false} ScanSkips(cells: seq<Option<Byte>>, room: nat, n: nat)
    requires n <= |cells| && n <= room && Readable(cells[..n]) && NulFree(Values(cells[..n]))
    ensures var rest := ByteScan(cells[n..], room - n);
            ByteScan(cells, room) == Scan(Values(cells[..n]) + rest.taken, rest.outcome)
  {
    if n == 0 {
      assert cells[0..] == cells;
    } else {
      var tail := cells[1..];
      ValuesCons(cells, n);
      assert tail[n - 1..] == cells[n..];
      ScanSkips(tail, room - 1, n - 1);
      Assoc([cells[0].value], Values(tail[..n - 1]), ByteScan(cells[n..], room - n).taken);
    }
  }

  // ----- One reader -----

  datatype VmReader = VmReader(cursor: nat, cells: seq<Option<Byte>>) {
    function Skip(n: nat): VmReader
      requires n <= |cells|
    {
      VmReader(cursor + n, cells[n..])
    }
  }

  const WORD_BYTES: nat := 8

  predicate IsAddrAligned(addr: nat) { BitAnd(addr, WORD_BYTES - 1) == 0 }

  lemma AlignedIff(addr: nat)
    ensures IsAddrAligned(addr) <==> addr % WORD_BYTES == 0
  {
    assert Pow2(3) == WORD_BYTES;
    MaskIsMod(addr, 3);
  }

  lemma AlignedStep(addr: nat)
    requires IsAddrAligned(addr)
    ensures addr % WORD_BYTES == 0 && IsAddrAligned(addr + WORD_BYTES)
  {
    AlignedIff(addr);
    AlignedIff(addr + WORD_BYTES);
  }

  function Room(used: nat, maxLen: nat): nat { if used < maxLen then maxLen - used else 0 }

  /** `read_val::<u8>`; a reader without cells is refused before memory is touched. */
  function ReadByte(r: VmReader): Result<Byte, Errno> {
    if r.cells == [] then Err(EINVAL)
    else if r.cells[0].None? then Err(EFAULT)
    else Ok(r.cells[0].value)
  }

  /** `read_val::<usize>`; fails when fewer than eight cells remain or one of them faults. */
  function ReadWord(r: VmReader): Result<Word, Errno> {
    if |r.cells| < WORD_BYTES then Err(EINVAL)
    else if !Readable(r.cells[..WORD_BYTES]) then Err(EFAULT)
    else Ok(WordOf(Values(r.cells[..WORD_BYTES])))
  }

  /** Scanning on from `reader` and `buffer` completes the scan begun at `start` with `first`. */
  ghost predicate Continues(start: VmReader, first: seq<Byte>, reader: VmReader, buffer: seq<Byte>, maxLen: nat) {
    var whole := ByteScan(start.cells, Room(|first|, maxLen));
    var rest := ByteScan(reader.cells, Room(|buffer|, maxLen));
    && first + whole.taken == buffer + rest.taken
    && whole.outcome == rest.outcome
    && start.Skip(|whole.taken|) == reader.Skip(|rest.taken|)
  }

  function FoundNul(outcome: Outcome): Result<bool, Errno> {
    match outcome
    case Found => Ok(true)
    case Ended => Ok(false)
    case Fault => Err(EFAULT)
  }

  /** The reader, the buffer and the result are those of the reference scan. */
  ghost predicate Scanned(
    start: VmReader, first: seq<Byte>, maxLen: nat, reader: VmReader, buffer: seq<Byte>, found: Result<bool, Errno>)
  {
    var scan := ByteScan(start.cells, Room(|first|, maxLen));
    && buffer == first + scan.taken
    && reader == start.Skip(|scan.taken|)
    && found == FoundNul(scan.outcome)
  }

  lemma ScanStarts(start: VmReader, first: seq<Byte>, maxLen: nat)
    ensures Continues(start, first, start, first, maxLen)
  {
  }

  lemma ScanEnds(start: VmReader, first: seq<Byte>, reader: VmReader, buffer: seq<Byte>, maxLen: nat)
    requires Continues(start, first, reader, buffer, maxLen)
    requires |buffer| >= maxLen || reader.cells == []
    ensures Scanned(start, first, maxLen, reader, buffer, Ok(false))
  {
  }

  /** A word that could be read is the next eight bytes, and the test tells whether one is a nul. */
  lemma WordRead(r: VmReader)
    requires ReadWord(r).Ok?
    ensures WORD_BYTES <= |r.cells| && Readable(r.cells[..WORD_BYTES])
    ensures BytesOf(ReadWord(r).value) == Values(r.cells[..WORD_BYTES])
    ensures HasZero(ReadWord(r).value) <==> !NulFree(Values(r.cells[..WORD_BYTES]))
  {
    BytesOfWordOf(Values(r.cells[..WORD_BYTES]));
    HasZeroIff(ReadWord(r).value);
  }

  lemma SkipSkip(r: VmReader, m: nat, n: nat)
    requires m + n <= |r.cells|
    ensures r.Skip(m).Skip(n) == r.Skip(m + n)
  {
    assert r.cells[m..][n..] == r.cells[m + n..];
  }

  /** Taking the next byte: the scan ends with a nul, or goes on. */
  lemma ByteStep(start: VmReader, first: seq<Byte>, reader: VmReader, buffer: seq<Byte>, maxLen: nat)
    requires Continues(start, first, reader, buffer, maxLen)
    requires |buffer| < maxLen && reader.cells != [] && reader.cells[0].Some?
    ensures var b := reader.cells[0].value;
            if b == 0 then Scanned(start, first, maxLen, reader.Skip(1), buffer + [b], Ok(true))
            else Continues(start, first, reader.Skip(1), buffer + [b], maxLen)
  {
    var b := reader.cells[0].value;
    if b != 0 {
      var rest := ByteScan(reader.cells[1..], Room(|buffer| + 1, maxLen));
      assert buffer + ([b] + rest.taken) == (buffer + [b]) + rest.taken;
      SkipSkip(reader, 1, |rest.taken|);
    }
  }

  /** Taking eight bytes without a nul. */
  lemma WordStep(start: VmReader, first: seq<Byte>, reader: VmReader, buffer: seq<Byte>, maxLen: nat)
    requires Continues(start, first, reader, buffer, maxLen)
    requires |buffer| + WORD_BYTES <= maxLen && WORD_BYTES <= |reader.cells| && Readable(reader.cells[..WORD_BYTES])
    requires NulFree(Values(reader.cells[..WORD_BYTES]))
    ensures Continues(start, first, reader.Skip(WORD_BYTES), buffer + Values(reader.cells[..WORD_BYTES]), maxLen)
  {
    ScanSkips(reader.cells, Room(|buffer|, maxLen), WORD_BYTES);
    var word := Values(reader.cells[..WORD_BYTES]);
    var rest := ByteScan(reader.cells[WORD_BYTES..], Room(|buffer| + WORD_BYTES, maxLen));
    assert buffer + (word + rest.taken) == (buffer + word) + rest.taken;
    SkipSkip(reader, WORD_BYTES, |rest.taken|);
  }

  /** One byte at a time while there is room and, with `unaligned`, the cursor is not aligned. */
  method ReadBytes(
    ghost start: VmReader, ghost first: seq<Byte>, reader0: VmReader, buffer0: seq<Byte>, maxLen: nat, unaligned: bool)
    returns (done: Option<Result<bool, Errno>>, reader: VmReader, buffer: seq<Byte>)
    requires Continues(start, first, reader0, buffer0, maxLen)
    ensures match done
            case Some(found) => Scanned(start, first, maxLen, reader, buffer, found)
            case None =>
              && Continues(start, first, reader, buffer, maxLen)
              && (|buffer| >= maxLen || reader.cells == [] || (unaligned && IsAddrAligned(reader.cursor)))
  {
    reader, buffer := reader0, buffer0;
    while (unaligned ==> !IsAddrAligned(reader.cursor)) && |buffer| < maxLen && reader.cells != []
      invariant Continues(start, first, reader, buffer, maxLen)
      decreases |reader.cells|
    {
      var byte := ReadByte(reader);
      if byte.Err? {
        return Some(Err(byte.error)), reader, buffer;
      }
      ByteStep(start, first, reader, buffer, maxLen);
      reader, buffer := reader.Skip(1), buffer + [byte.value];
      if byte.value == 0 {
        return Some(Ok(true)), reader, buffer;
      }
    }
    done := None;
  }

  /** The word has a nul, so the loop over its bytes returns. */
  method TakeUntilNul(
    ghost start: VmReader, ghost first: seq<Byte>, reader0: VmReader, buffer0: seq<Byte>, ghost maxLen: nat, word: Word)
    returns (reader: VmReader, buffer: seq<Byte>)
    requires Continues(start, first, reader0, buffer0, maxLen)
    requires |buffer0| + WORD_BYTES <= maxLen && WORD_BYTES <= |reader0.cells| && Readable(reader0.cells[..WORD_BYTES])
    requires BytesOf(word) == Values(reader0.cells[..WORD_BYTES]) && HasZero(word)
    ensures Scanned(start, first, maxLen, reader, buffer, Ok(true))
  {
    reader, buffer := reader0, buffer0;
    var bytes := BytesOf(word);
    HasZeroIff(word);
    for i := 0 to WORD_BYTES
      invariant Continues(start, first, reader, buffer, maxLen)
      invariant reader == reader0.Skip(i) && |buffer| == |buffer0| + i && NulFree(bytes[..i])
    {
      var byte := bytes[i];
      assert reader.cells[0] == reader0.cells[..WORD_BYTES][i];
      ByteStep(start, first, reader, buffer, maxLen);
      SkipSkip(reader0, i, 1);
      reader, buffer := reader.Skip(1), buffer + [byte];
      if byte == 0 {
        return;
      }
      assert bytes[..i + 1] == bytes[..i] + [byte];
    }
    assert false;
  }

  /**
    Bytes up to an aligned address, then whole words, then bytes again.  `wordReads` records where
    words were read.
   */
  method ReadUntilNulByte(start: VmReader, first: seq<Byte>, maxLen: nat)
    returns (found: Result<bool, Errno>, reader: VmReader, buffer: seq<Byte>, ghost wordReads: set<nat>)
    ensures Scanned(start, first, maxLen, reader, buffer, found)
    ensures forall addr :: addr in wordReads ==> addr % WORD_BYTES == 0
  {
    var done;
    wordReads := {};
    ScanStarts(start, first, maxLen);
    done, reader, buffer := ReadBytes(start, first, start, first, maxLen, true);
    if done.Some? {
      return done.value, reader, buffer, wordReads;
    }

    var cloned := reader;
    while |buffer| + WORD_BYTES <= maxLen
      invariant Continues(start, first, reader, buffer, maxLen)
      invariant cloned == reader
      invariant |buffer| < maxLen && reader.cells != [] ==> IsAddrAligned(reader.cursor)
      invariant forall addr :: addr in wordReads ==> addr % WORD_BYTES == 0
      decreases |reader.cells|
    {
      var word := ReadWord(cloned);
      if word.Err? {
        break;
      }
      AlignedStep(cloned.cursor);
      wordReads := wordReads + {cloned.cursor};
      cloned := cloned.Skip(WORD_BYTES);
      WordRead(reader);
      if HasZero(word.value) {
        reader, buffer := TakeUntilNul(start, first, reader, buffer, maxLen, word.value);
        return Ok(true), reader, buffer, wordReads;
      }
      WordStep(start, first, reader, buffer, maxLen);
      reader, buffer := reader.Skip(WORD_BYTES), buffer + BytesOf(word.value);
    }

    done, reader, buffer := ReadBytes(start, first, reader, buffer, maxLen, false);
    if done.Some? {
      return done.value, reader, buffer, wordReads;
    }
    ScanEnds(start, first, reader, buffer, maxLen);
    found := Ok(false);
  }

  // ----- C strings -----

  /** The content of a C string, without its terminating nul. */
  type CString = s: seq<Byte> | NulFree(s)

  /** `CString::from_vec_with_nul(v).unwrap()` */
  function FromVecWithNul(v: seq<Byte>): CString
    requires EndsInSingleNul(v)
  {
    v[..|v| - 1]
  }

  /** `CString::new(v).unwrap()` */
  function NewCString(v: seq<Byte>): CString
    requires NulFree(v)
  {
    v
  }

  /** What reading up to a nul delivers for a scan. */
  function UntilNul(scan: Scan): Result<Option<CString>, Errno>
    requires scan.outcome.Found? ==> EndsInSingleNul(scan.taken)
  {
    match scan.outcome
    case Found => Ok(Some(FromVecWithNul(scan.taken)))
    case Ended => Ok(None)
    case Fault => Err(EFAULT)
  }

  /** What reading up to a nul or the end delivers; the number tells the two apart. */
  function UntilEnd(scan: Scan): Result<(CString, nat), Errno>
    requires scan.outcome.Found? ==> EndsInSingleNul(scan.taken)
    requires scan.outcome.Ended? ==> NulFree(scan.taken)
  {
    match scan.outcome
    case Found => Ok((FromVecWithNul(scan.taken), |scan.taken|))
    case Ended => Ok((NewCString(scan.taken), |scan.taken|))
    case Fault => Err(EFAULT)
  }

  /** The buffer is always acceptable to the C string constructors. */
  lemma ScanShape(cells: seq<Option<Byte>>, room: nat)
    ensures var scan := ByteScan(cells, room);
            && (scan.outcome.Found? ==> EndsInSingleNul(scan.taken))
            && (scan.outcome.Ended? ==> NulFree(scan.taken))
  {
    ScanMeaning(cells, room);
  }

  /** `n` cells were taken without meeting a nul; the next one cannot be read. */
  ghost predicate FaultsBehind(cells: seq<Option<Byte>>, maxLen: nat, e: Errno, n: nat) {
    e == EFAULT && n < Min(maxLen, |cells|) && cells[n].None? && Readable(cells[..n]) && NulFree(Values(cells[..n]))
  }

  /**
    What reading up to a nul has to deliver: the string and its nul are exactly the `n` cells
    taken, or there is no nul within the limit.
   */
  ghost predicate DeliversUntilNul(cells: seq<Option<Byte>>, maxLen: nat, r: Result<Option<CString>, Errno>, n: nat) {
    && n <= Min(maxLen, |cells|) && Readable(cells[..n])
    && match r {
         case Ok(Some(s)) => s + [0] == Values(cells[..n])
         case Ok(None) => n == Min(maxLen, |cells|) && NulFree(Values(cells[..n]))
         case Err(e) => FaultsBehind(cells, maxLen, e, n)
       }
  }

  /** What reading up to a nul or the end has to deliver; the number is that of the cells taken. */
  ghost predicate DeliversUntilEnd(cells: seq<Option<Byte>>, maxLen: nat, r: Result<(CString, nat), Errno>, n: nat) {
    && n <= Min(maxLen, |cells|) && Readable(cells[..n])
    && match r {
         case Ok((s, count)) =>
           && count == n
           && (s + [0] == Values(cells[..n]) || (s == Values(cells[..n]) && n == Min(maxLen, |cells|)))
         case Err(e) => FaultsBehind(cells, maxLen, e, n)
       }
  }

  lemma ScanDelivers(cells: seq<Option<Byte>>, maxLen: nat)
    ensures var scan := ByteScan(cells, maxLen);
            && (scan.outcome.Found? ==> EndsInSingleNul(scan.taken))
            && (scan.outcome.Ended? ==> NulFree(scan.taken))
            && DeliversUntilNul(cells, maxLen, UntilNul(scan), |scan.taken|)
            && DeliversUntilEnd(cells, maxLen, UntilEnd(scan), |scan.taken|)
  {
    ScanMeaning(cells, maxLen);
    var taken := ByteScan(cells, maxLen).taken;
    if taken != [] { assert taken == taken[..|taken| - 1] + [taken[|taken| - 1]]; }
  }

  method ReadFromStart(start: VmReader, maxLen: nat)
    returns (found: Result<bool, Errno>, reader: VmReader, buffer: seq<Byte>)
    ensures var scan := ByteScan(start.cells, maxLen);
            buffer == scan.taken && reader == start.Skip(|scan.taken|) && found == FoundNul(scan.outcome)
  {
    var result, after, bytes, words := ReadUntilNulByte(start, [], maxLen);
    found, reader, buffer := result, after, bytes;
  }

  method ReadCStringUntilNul(start: VmReader, maxLen: nat)
    returns (r: Result<Option<CString>, Errno>, reader: VmReader)
    ensures var scan := ByteScan(start.cells, maxLen);
            && (scan.outcome.Found? ==> EndsInSingleNul(scan.taken))
            && r == UntilNul(scan) && reader == start.Skip(|scan.taken|)
            && DeliversUntilNul(start.cells, maxLen, r, |scan.taken|)
  {
    ScanDelivers(start.cells, maxLen);
    var found, after, buffer := ReadFromStart(start, maxLen);
    reader := after;
    if found.Err? {
      return Err(found.error), reader;
    }
    r := Ok(if found.value then Some(FromVecWithNul(buffer)) else None);
  }

  method ReadCStringUntilEnd(start: VmReader, maxLen: nat)
    returns (r: Result<(CString, nat), Errno>, reader: VmReader)
    ensures var scan := ByteScan(start.cells, maxLen);
            && (scan.outcome.Found? ==> EndsInSingleNul(scan.taken))
            && (scan.outcome.Ended? ==> NulFree(scan.taken))
            && r == UntilEnd(scan) && reader == start.Skip(|scan.taken|)
            && DeliversUntilEnd(start.cells, maxLen, r, |scan.taken|)
  {
    ScanDelivers(start.cells, maxLen);
    var found, after, buffer := ReadFromStart(start, maxLen);
    reader := after;
    if found.Err? {
      return Err(found.error), reader;
    }
    r := Ok((if found.value then FromVecWithNul(buffer) else NewCString(buffer), |buffer|));
  }

  // ----- Arrays of readers -----

  /** A scan that met its end goes on with the next one. */
  function Then(s: Scan, rest: Scan): Scan {
    if s.outcome.Ended? then Scan(s.taken + rest.taken, rest.outcome) else s
  }

  lemma ThenCons(b: Byte, s: Scan, rest: Scan)
    ensures Then(Scan([b] + s.taken, s.outcome), rest) == Scan([b] + Then(s, rest).taken, Then(s, rest).outcome)
  {
    Assoc([b], s.taken, rest.taken);
  }

  lemma ThenNothing(rest: Scan)
    ensures Then(Scan([], Ended), rest) == rest
  {
    assert [] + rest.taken == rest.taken;
  }

  /** Scanning two stretches of memory laid end to end. */
  lemma {:induction false} ScanConcat(a: seq<Option<Byte>>, b: seq<Option<Byte>>, room: nat)
    ensures ByteScan(a + b, room) == Then(ByteScan(a, room), ByteScan(b, room - |ByteScan(a, room).taken|))
  {
    if a == [] {
      assert a + b == b;
      ThenNothing(ByteScan(b, room));
    } else if room == 0 {
      ThenNothing(ByteScan(b, 0));
    } else {
      HeadOfConcat(a, b);
      if a[0].Some? && a[0].value != 0 {
        ScanConcat(a[1..], b, room - 1);
        var s := ByteScan(a[1..], room - 1);
        ThenCons(a[0].value, s, ByteScan(b, room - 1 - |s.taken|));
      }
    }
  }

  function CellsOf(readers: seq<VmReader>): (cs: seq<seq<Option<Byte>>>)
    ensures |cs| == |readers|
  {
    seq(|readers|, i requires 0 <= i < |readers| => readers[i].cells)
  }

  /** The first `i` readers held no nul: they were read up to their end or up to `maxLen`. */
  ghost predicate NoNulYet(
    cs: seq<seq<Option<Byte>>>, now: seq<seq<Option<Byte>>>, buffer: seq<Byte>, maxLen: nat, i: nat)
  {
    && i <= |cs| && |now| == |cs|
    && ByteScan(Concat(cs[..i]), maxLen) == Scan(buffer, Ended)
    && now == Advance(cs, |buffer|)
    && now[i..] == cs[i..]
  }

  /** Advancing reader `i` when the readers before it are used up. */
  lemma AdvanceOne<T>(rs: seq<seq<T>>, i: nat, k: nat)
    requires i < |rs| && k <= |rs[i]|
    ensures var n := |Concat(rs[..i])|;
            |Advance(rs, n)| == |rs| && Advance(rs, n)[i := rs[i][k..]] == Advance(rs, n + k)
  {
    AdvanceInto(rs, i, 0);
    AdvanceInto(rs, i, k);
    assert rs[i][0..] == rs[i];
  }

  lemma AdvanceNext<T>(rs: seq<seq<T>>, n: nat, i: nat, k: nat)
    requires i < |rs| && |Advance(rs, n)| == |rs| && Advance(rs, n)[i] == rs[i] && k <= |rs[i]|
    requires n == |Concat(rs[..i])| || k == 0
    ensures Advance(rs, n)[i := rs[i][k..]] == Advance(rs, n + k)
  {
    if k == 0 {
      assert rs[i][0..] == rs[i];
    } else {
      AdvanceOne(rs, i, k);
    }
  }

  lemma EndedTakesAll(cells: seq<Option<Byte>>, room: nat)
    requires ByteScan(cells, room).outcome.Ended?
    ensures |ByteScan(cells, room).taken| == Min(room, |cells|)
  {
    ScanMeaning(cells, room);
  }

  lemma ScanOn(a: seq<Option<Byte>>, b: seq<Option<Byte>>, maxLen: nat, buffer: seq<Byte>, s: Scan)
    requires ByteScan(a, maxLen) == Scan(buffer, Ended) && s == ByteScan(b, Room(|buffer|, maxLen))
    ensures ByteScan(a + b, maxLen) == Scan(buffer + s.taken, s.outcome)
  {
    ScanConcat(a, b, maxLen);
  }

  lemma ScanOver(a: seq<Option<Byte>>, b: seq<Option<Byte>>, maxLen: nat)
    requires !ByteScan(a, maxLen).outcome.Ended?
    ensures ByteScan(a + b, maxLen) == ByteScan(a, maxLen)
  {
    ScanConcat(a, b, maxLen);
  }

  /** The scan of the first `i + 1` readers, and of all of them. */
  lemma ScanNext(cs: seq<seq<Option<Byte>>>, buffer: seq<Byte>, maxLen: nat, i: nat, s: Scan)
    requires i < |cs| && ByteScan(Concat(cs[..i]), maxLen) == Scan(buffer, Ended)
    requires s == ByteScan(cs[i], Room(|buffer|, maxLen))
    ensures ByteScan(Concat(cs[..i + 1]), maxLen) == Scan(buffer + s.taken, s.outcome)
    ensures !s.outcome.Ended? ==> ByteScan(Concat(cs), maxLen) == Scan(buffer + s.taken, s.outcome)
  {
    ConcatNext(cs, i);
    ScanOn(Concat(cs[..i]), cs[i], maxLen, buffer, s);
    if !s.outcome.Ended? { ScanOver(Concat(cs[..i + 1]), Concat(cs[i + 1..]), maxLen); }
  }

  lemma ArrayStep(cs: seq<seq<Option<Byte>>>, now: seq<seq<Option<Byte>>>, buffer: seq<Byte>, maxLen: nat, i: nat)
    requires NoNulYet(cs, now, buffer, maxLen, i) && i < |cs|
    ensures var s := ByteScan(now[i], Room(|buffer|, maxLen));
            var next := now[i := now[i][|s.taken|..]];
            && next == Advance(cs, |buffer + s.taken|)
            && if s.outcome.Ended? then NoNulYet(cs, next, buffer + s.taken, maxLen, i + 1)
               else ByteScan(Concat(cs), maxLen) == Scan(buffer + s.taken, s.outcome)
  {
    assert now[i] == now[i..][0] == cs[i];
    var s := ByteScan(now[i], Room(|buffer|, maxLen));
    EndedTakesAll(Concat(cs[..i]), maxLen);
    AdvanceNext(cs, |buffer|, i, |s.taken|);
    ScanNext(cs, buffer, maxLen, i, s);
    SuffixStep(now, cs, i, now[i][|s.taken|..]);
  }

  /** The readers with the addresses of their cursors, which decide where words are read. */
  class AddressedReaders {
    var readers: seq<VmReader>

    constructor (readers: seq<VmReader>)
      ensures this.readers == readers
    {
      this.readers := readers;
    }

    /** The readers are read as if their cells were one stretch of memory, under one `maxLen`. */
    method ReadUntilNul(maxLen: nat) returns (found: Result<bool, Errno>, buffer: seq<Byte>)
      modifies this
      ensures var scan := ByteScan(Concat(old(CellsOf(readers))), maxLen);
              && buffer == scan.taken
              && found == FoundNul(scan.outcome)
              && CellsOf(readers) == Advance(old(CellsOf(readers)), |buffer|)
    {
      ghost var cs := CellsOf(readers);
      buffer := [];
      var i := 0;
      AdvanceZero(cs);
      while i < |readers|
        invariant i <= |readers| == |cs|
        invariant NoNulYet(cs, CellsOf(readers), buffer, maxLen, i)
      {
        ArrayStep(cs, CellsOf(readers), buffer, maxLen, i);
        ghost var now := CellsOf(readers);
        var result, reader, bytes, words := ReadUntilNulByte(readers[i], buffer, maxLen);
        found, buffer, readers := result, bytes, readers[i := reader];
        assert CellsOf(readers) == now[i := reader.cells];
        if found != Ok(false) {
          return;
        }
        i := i + 1;
      }
      assert cs[..|cs|] == cs;
      found := Ok(false);
    }

    method ReadCStringUntilNul(maxLen: nat) returns (r: Result<Option<CString>, Errno>)
      modifies this
      ensures var scan := ByteScan(Concat(old(CellsOf(readers))), maxLen);
              && (scan.outcome.Found? ==> EndsInSingleNul(scan.taken))
              && r == UntilNul(scan)
              && CellsOf(readers) == Advance(old(CellsOf(readers)), |scan.taken|)
              && DeliversUntilNul(Concat(old(CellsOf(readers))), maxLen, r, |scan.taken|)
    {
      ScanDelivers(Concat(CellsOf(readers)), maxLen);
      var found, buffer := ReadUntilNul(maxLen);
      if found.Err? {
        return Err(found.error);
      }
      r := Ok(if found.value then Some(FromVecWithNul(buffer)) else None);
    }

    method ReadCStringUntilEnd(maxLen: nat) returns (r: Result<(CString, nat), Errno>)
      modifies this
      ensures var scan := ByteScan(Concat(old(CellsOf(readers))), maxLen);
              && (scan.outcome.Found? ==> EndsInSingleNul(scan.taken))
              && (scan.outcome.Ended? ==> NulFree(scan.taken))
              && r == UntilEnd(scan)
              && CellsOf(readers) == Advance(old(CellsOf(readers)), |scan.taken|)
              && DeliversUntilEnd(Concat(old(CellsOf(readers))), maxLen, r, |scan.taken|)
    {
      ScanDelivers(Concat(CellsOf(readers)), maxLen);
      var found, buffer := ReadUntilNul(maxLen);
      if found.Err? {
        return Err(found.error);
      }
      r := Ok((if found.value then FromVecWithNul(buffer) else NewCString(buffer), |buffer|));
    }
  }
}
