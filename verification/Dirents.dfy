/**
  Directory entries as `getdents64` lays them out in a buffer, and the walk by record length with
  which a program reads them back.
 */
module Dirents {
  import opened BitMasks
  import opened Sequences
  import opened UserBuffers
  import opened Wrappers
  import PathLookup

  type U8 = x: nat | x < 256

  // ----- Little-endian numbers -----

  function Pow256(n: nat): (r: nat)
    ensures r > 0
  {
    if n == 0 then 1 else 256 * Pow256(n - 1)
  }

  type U64 = x: nat | x < Pow256(8)

  function LeBytes(x: nat, n: nat): (s: seq<U8>)
    ensures |s| == n
  {
    if n == 0 then [] else [x % 256] + LeBytes(x / 256, n - 1)
  }

  function FromLe(s: seq<U8>): (x: nat)
    ensures x < Pow256(|s|)
  {
    if s == [] then 0 else s[0] + 256 * FromLe(s[1..])
  }

  lemma {:induction false} LeRoundTrip(x: nat, n: nat)
    requires x < Pow256(n)
    ensures FromLe(LeBytes(x, n)) == x
  {
    if n > 0 {
      LeRoundTrip(x / 256, n - 1);
      assert LeBytes(x, n)[1..] == LeBytes(x / 256, n - 1);
    }
  }

  // ----- Entries -----

  type InodeType = PathLookup.InodeType

  function DirentType(t: InodeType): U8 {
    match t
    case Unknown => 0
    case NamedPipe => 1
    case CharDevice => 2
    case Dir => 4
    case BlockDevice => 6
    case File => 8
    case SymLink => 10
    case Socket => 12
  }

  function InodeTypeOf(d: U8): Option<InodeType> {
    match d
    case 0 => Some(PathLookup.Unknown)
    case 1 => Some(PathLookup.NamedPipe)
    case 2 => Some(PathLookup.CharDevice)
    case 4 => Some(PathLookup.Dir)
    case 6 => Some(PathLookup.BlockDevice)
    case 8 => Some(PathLookup.File)
    case 10 => Some(PathLookup.SymLink)
    case 12 => Some(PathLookup.Socket)
    case _ => None
  }

  /** The file type bits of `st_mode`. */
  function Mode(t: InodeType): nat {
    match t
    case Unknown => 0
    case NamedPipe => 0x1000
    case CharDevice => 0x2000
    case Dir => 0x4000
    case BlockDevice => 0x6000
    case File => 0x8000
    case SymLink => 0xA000
    case Socket => 0xC000
  }

  /** The type of a directory entry is the file type of its mode, shifted down; it is read back as that type only. */
  lemma DirentTypeIsMode(t: InodeType, d: U8)
    ensures DirentType(t) as nat == Mode(t) / 0x1000
    ensures InodeTypeOf(d) == Some(t) <==> d as nat * 0x1000 == Mode(t)
  {
  }

  datatype Entry = Entry(ino: U64, off: U64, kind: InodeType, name: seq<U8>)

  const HEADER: nat := 19   // d_ino, d_off, d_reclen and d_type, packed

  /** `x & !mask` */
  function AndNot(x: nat, mask: nat): int { x - BitAnd(x, mask) }

  function AlignUp(size: nat, align: nat): int
    requires align > 0
  {
    AndNot(size + align - 1, align - 1)
  }

  lemma RoundedDown(x: nat, m: nat)
    requires m > 0
    ensures x - m < x - x % m <= x && (x - x % m) % m == 0
  {
    ModUnique(x - x % m, m, x / m, 0);
  }

  lemma AlignUpIsLeast(size: nat, k: nat)
    ensures var align := Pow2(k);
            size <= AlignUp(size, align) < size + align && AlignUp(size, align) % align == 0
  {
    var align := Pow2(k);
    var x := size + align - 1;
    MaskIsMod(x, k);
    assert AlignUp(size, align) == x - x % align;
    RoundedDown(x, align);
  }

  function Truncate16(x: int): nat { x % 65536 }

  /** The `d_reclen` of an entry whose name has `n` bytes. */
  function RecLen(n: nat): nat { Truncate16(AlignUp(HEADER + n + 1, 8)) }

  /** The longest name whose record length fits 16 bits. */
  const MAX_NAME: nat := 65508

  lemma Truncated(len: nat, a: nat)
    requires len <= a < len + 8 && a % 8 == 0
    ensures Truncate16(a) % 8 == 0
    ensures len <= 65528 ==> Truncate16(a) == a
    ensures len > 65528 ==> Truncate16(a) < len
  {
    assert a == a / 65536 * 65536 + a % 65536;
  }

  lemma RecLenFits(n: nat)
    ensures RecLen(n) % 8 == 0 && RecLen(n) < 65536
    ensures n <= MAX_NAME ==> HEADER + n + 1 <= RecLen(n) < HEADER + n + 9
    ensures n > MAX_NAME ==> RecLen(n) < HEADER + n + 1
  {
    AlignUpIsLeast(HEADER + n + 1, 3);
    assert Pow2(3) == 8;
    Truncated(HEADER + n + 1, AlignUp(HEADER + n + 1, 8));
  }

  /** The bytes written for an entry; what follows up to `d_reclen` is padding. */
  function Serialized(e: Entry): (s: seq<U8>)
    ensures |s| == HEADER + |e.name| + 1
  {
    LeBytes(e.ino, 8) + LeBytes(e.off, 8) + LeBytes(RecLen(|e.name|), 2) + [DirentType(e.kind)] + e.name + [0]
  }

  // ----- Reading back -----

  function UpToNul(s: seq<U8>): seq<U8>
    requires 0 in s
  {
    if s[0] == 0 then [] else [s[0]] + UpToNul(s[1..])
  }

  lemma {:induction false} UpToNulOf(name: seq<U8>, rest: seq<U8>)
    requires 0 !in name
    ensures 0 in name + [0] + rest && UpToNul(name + [0] + rest) == name
  {
    assert (name + [0] + rest)[|name|] == 0;
    if name != [] {
      UpToNulOf(name[1..], rest);
      assert (name + [0] + rest)[1..] == name[1..] + [0] + rest;
    }
  }

  function ParseRecord(r: seq<U8>): Option<Entry>
    requires |r| >= HEADER
  {
    var kind := InodeTypeOf(r[18]);
    if kind.None? || 0 !in r[HEADER..] then None
    else Some(Entry(FromLe(r[..8]), FromLe(r[8..16]), kind.value, UpToNul(r[HEADER..])))
  }

  function Prepend(e: Option<Entry>, rest: Option<seq<Entry>>): Option<seq<Entry>> {
    if e.None? || rest.None? then None else Some([e.value] + rest.value)
  }

  /** Entry after entry, each `d_reclen` bytes long. */
  function Walk(bytes: seq<U8>): Option<seq<Entry>>
    decreases |bytes|
  {
    if bytes == [] then Some([])
    else if |bytes| < HEADER then None
    else
      var len := FromLe(bytes[16..18]);
      if len < HEADER || len > |bytes| then None
      else
        Prepend(ParseRecord(bytes[..len]), Walk(bytes[len..]))
  }

  lemma WalkCons(r: seq<U8>, rest: seq<U8>)
    requires |r| >= HEADER && FromLe(r[16..18]) == |r|
    ensures Walk(r + rest) == Prepend(ParseRecord(r), Walk(rest))
  {
    var bytes := r + rest;
    assert bytes[16..18] == r[16..18] && bytes[..|r|] == r && bytes[|r|..] == rest;
  }

  lemma WalkConsAppend(r: seq<U8>, rest: seq<U8>, b: seq<U8>)
    requires |r| >= HEADER && FromLe(r[16..18]) == |r|
    ensures Walk(r + rest + b) == Prepend(ParseRecord(r), Walk(rest + b))
  {
    Assoc(r, rest, b);
    WalkCons(r, rest + b);
  }

  /** The first record of a buffer that can be walked. */
  lemma WalkHead(a: seq<U8>) returns (r: seq<U8>, rest: seq<U8>)
    requires Walk(a).Some? && a != []
    ensures |r| >= HEADER && FromLe(r[16..18]) == |r|
    ensures a == r + rest && Walk(rest).Some? && Walk(a) == Prepend(ParseRecord(r), Walk(rest))
  {
    var len := FromLe(a[16..18]);
    r, rest := a[..len], a[len..];
    assert r[16..18] == a[16..18];
  }

  function Join(a: Option<seq<Entry>>, b: Option<seq<Entry>>): Option<seq<Entry>> {
    if a.None? || b.None? then None else Some(a.value + b.value)
  }

  lemma PrependJoin(e: Option<Entry>, a: Option<seq<Entry>>, b: Option<seq<Entry>>)
    ensures Join(Prepend(e, a), b) == Prepend(e, Join(a, b))
  {
    if e.Some? && a.Some? && b.Some? {
      assert ([e.value] + a.value) + b.value == [e.value] + (a.value + b.value);
    }
  }

  lemma {:induction false} WalkAppend(a: seq<U8>, b: seq<U8>)
    requires Walk(a).Some?
    ensures Walk(a + b) == Join(Walk(a), Walk(b))
    decreases |a|
  {
    if a == [] {
      assert a + b == b;
      assert Walk(b).Some? ==> [] + Walk(b).value == Walk(b).value;
    } else {
      var r, rest := WalkHead(a);
      WalkAppend(rest, b);
      WalkConsAppend(r, rest, b);
      PrependJoin(ParseRecord(r), Walk(rest), Walk(b));
    }
  }

  // ----- One entry -----

  /** `r` holds the fields of `e`, then `pad`. */
  ghost predicate Lays(r: seq<U8>, e: Entry, pad: seq<U8>) {
    && |r| >= HEADER
    && r[..8] == LeBytes(e.ino, 8) && r[8..16] == LeBytes(e.off, 8)
    && r[16..18] == LeBytes(RecLen(|e.name|), 2)
    && r[18] == DirentType(e.kind) && r[HEADER..] == e.name + [0] + pad
  }

  lemma SerializedLays(e: Entry, pad: seq<U8>)
    ensures Lays(Serialized(e) + pad, e, pad)
  {
  }

  lemma RecLenField(e: Entry)
    ensures FromLe(LeBytes(RecLen(|e.name|), 2)) == RecLen(|e.name|)
  {
    RecLenFits(|e.name|);
    assert Pow256(2) == 65536;
    LeRoundTrip(RecLen(|e.name|), 2);
  }

  lemma FieldsParse(r: seq<U8>, e: Entry, pad: seq<U8>)
    requires Lays(r, e, pad) && 0 !in e.name
    ensures ParseRecord(r) == Some(e)
  {
    LeRoundTrip(e.ino, 8);
    LeRoundTrip(e.off, 8);
    UpToNulOf(e.name, pad);
  }

  lemma WalkOne(r: seq<U8>)
    requires |r| >= HEADER && FromLe(r[16..18]) == |r|
    ensures Walk(r) == match ParseRecord(r) { case Some(e) => Some([e]) case None => None }
  {
    WalkCons(r, []);
    assert r + [] == r;
    assert ParseRecord(r).Some? ==> [ParseRecord(r).value] + [] == [ParseRecord(r).value];
  }

  /** A record reads back as its entry, whatever the padding holds. */
  lemma RecordParses(r: seq<U8>, e: Entry, pad: seq<U8>)
    requires Lays(r, e, pad) && 0 !in e.name && |r| == RecLen(|e.name|)
    ensures Walk(r) == Some([e])
  {
    RecLenField(e);
    FieldsParse(r, e, pad);
    WalkOne(r);
  }

  /** A record cut short by the 16-bit length cannot be read back. */
  lemma TruncatedFails(e: Entry)
    requires 0 !in e.name && |e.name| > MAX_NAME
    ensures RecLen(|e.name|) < |Serialized(e)|
    ensures var c := Serialized(e)[..RecLen(|e.name|)]; c == [] || Walk(c).None?
  {
    RecLenFits(|e.name|);
    var n := RecLen(|e.name|);
    var c := Serialized(e)[..n];
    if n >= HEADER {
      SerializedLays(e, []);
      assert Serialized(e) + [] == Serialized(e);
      assert c[16..18] == LeBytes(n, 2);
      RecLenField(e);
      assert c[HEADER..] == e.name[..n - HEADER];
      WalkOne(c);
    }
  }

  // ----- Visits -----

  /** The buffer and how much of it is filled. */
  datatype Filled = Filled(bytes: seq<U8>, readLen: nat)

  datatype Outcome = Accepted | Rejected(error: Errno) | Panicked

  /** What a visit does: a name too long for the record length may be written past the buffer's end. */
  function Judge(b: Filled, e: Entry): Outcome {
    if 0 in e.name then Rejected(E2BIG)
    else if b.readLen >= |b.bytes| then Rejected(EINVAL)
    else if b.readLen + RecLen(|e.name|) > |b.bytes| then Rejected(EINVAL)
    else if b.readLen + |Serialized(e)| > |b.bytes| then Panicked
    else Accepted
  }

  /** An entry is accepted exactly when its name has no nul and its record, rounded up to eight bytes, still fits. */
  lemma AcceptedIffFits(b: Filled, e: Entry)
    requires |e.name| <= MAX_NAME
    ensures Judge(b, e) == if 0 in e.name then Rejected(E2BIG)
                           else if b.readLen + (|e.name| + 27) / 8 * 8 <= |b.bytes| then Accepted
                           else Rejected(EINVAL)
  {
    RecLenFits(|e.name|);
    assert RecLen(|e.name|) == (|e.name| + 27) / 8 * 8;
  }

  function Visited(b: Filled, e: Entry): (b': Filled)
    ensures |b'.bytes| == |b.bytes| && (b.readLen <= |b.bytes| ==> b'.readLen <= |b'.bytes|)
  {
    if Judge(b, e).Accepted? then
      Filled(Patch(b.bytes, b.readLen, Serialized(e)), b.readLen + RecLen(|e.name|))
    else b
  }

  function Parsed(b: Filled): Option<seq<Entry>>
    requires b.readLen <= |b.bytes|
  {
    Walk(b.bytes[..b.readLen])
  }

  /** What an accepted visit adds to the filled part. */
  lemma VisitedChunk(b: Filled, e: Entry) returns (chunk: seq<U8>)
    requires Judge(b, e).Accepted?
    ensures var b' := Visited(b, e); b'.bytes[..b'.readLen] == b.bytes[..b.readLen] + chunk
    ensures |chunk| == RecLen(|e.name|)
    ensures |Serialized(e)| <= |chunk| ==> chunk == Serialized(e) + chunk[|Serialized(e)|..]
    ensures |chunk| < |Serialized(e)| ==> chunk == Serialized(e)[..|chunk|]
  {
    var b' := Visited(b, e);
    chunk := b'.bytes[b.readLen..b'.readLen];
  }

  /** Appending an entry to what the walk finds works exactly for names that fit the record length. */
  lemma VisitParses(b: Filled, e: Entry)
    requires b.readLen <= |b.bytes| && Parsed(b).Some?
    ensures !Judge(b, e).Accepted? ==> Visited(b, e) == b
    ensures Judge(b, e).Accepted? ==>
              (Parsed(Visited(b, e)) == Some(Parsed(b).value + [e]) <==> |e.name| <= MAX_NAME)
    ensures Judge(b, e).Panicked? ==> |e.name| > MAX_NAME
  {
    RecLenFits(|e.name|);
    if Judge(b, e).Accepted? {
      var chunk := VisitedChunk(b, e);
      WalkAppend(b.bytes[..b.readLen], chunk);
      if |e.name| <= MAX_NAME {
        SerializedLays(e, chunk[|Serialized(e)|..]);
        RecordParses(chunk, e, chunk[|Serialized(e)|..]);
      } else {
        TruncatedFails(e);
        assert chunk == [] ==> |Join(Parsed(b), Walk(chunk)).value| == |Parsed(b).value|;
      }
    }
  }

  function Visits(b: Filled, es: seq<Entry>): (b': Filled)
    ensures |b'.bytes| == |b.bytes| && (b.readLen <= |b.bytes| ==> b'.readLen <= |b'.bytes|)
    decreases |es|
  {
    if es == [] then b else Visits(Visited(b, es[0]), es[1..])
  }

  /** The entries whose visits are accepted. */
  function Kept(b: Filled, es: seq<Entry>): seq<Entry>
    decreases |es|
  {
    if es == [] then []
    else (if Judge(b, es[0]).Accepted? then [es[0]] else []) + Kept(Visited(b, es[0]), es[1..])
  }

  function TotalLen(es: seq<Entry>): nat {
    if es == [] then 0 else RecLen(|es[0].name|) + TotalLen(es[1..])
  }

  lemma {:induction false} TotalLenAligned(es: seq<Entry>)
    ensures TotalLen(es) % 8 == 0
  {
    if es != [] {
      RecLenFits(|es[0].name|);
      TotalLenAligned(es[1..]);
    }
  }

  lemma VisitLen(b: Filled, e: Entry, rest: seq<Entry>)
    ensures var kept := if Judge(b, e).Accepted? then [e] else [];
            b.readLen + TotalLen(kept + rest) == Visited(b, e).readLen + TotalLen(rest)
  {
    if Judge(b, e).Accepted? {
      assert ([e] + rest)[1..] == rest;
    } else {
      assert [] + rest == rest;
    }
  }

  /** Walking the buffer after any visits recovers the accepted entries, in order. */
  lemma {:induction false} VisitsRoundTrip(b: Filled, es: seq<Entry>)
    requires b.readLen <= |b.bytes| && Parsed(b).Some?
    requires forall e :: e in es ==> |e.name| <= MAX_NAME
    ensures Parsed(Visits(b, es)) == Some(Parsed(b).value + Kept(b, es))
    ensures Visits(b, es).readLen == b.readLen + TotalLen(Kept(b, es))
    decreases |es|
  {
    if es == [] {
      assert Parsed(b).value + [] == Parsed(b).value;
    } else {
      var e, rest := es[0], es[1..];
      var kept := if Judge(b, e).Accepted? then [e] else [];
      VisitParses(b, e);
      assert Parsed(Visited(b, e)).value == Parsed(b).value + kept;
      VisitsRoundTrip(Visited(b, e), rest);
      Assoc(Parsed(b).value, kept, Kept(Visited(b, e), rest));
      VisitLen(b, e, Kept(Visited(b, e), rest));
    }
  }

  /** One byte more than the longest name: the entry is accepted with record length 0 and lost. */
  lemma LongNameLost(e: Entry, b: Filled)
    requires |e.name| == MAX_NAME + 1 && 0 !in e.name
    requires |b.bytes| == 65536 && b.readLen == 0
    ensures Judge(b, e).Accepted? && Visited(b, e).readLen == 0 && Parsed(Visited(b, e)) == Some([])
  {
    AlignUpIsLeast(65529, 3);
    assert Pow2(3) == 8;
  }

  lemma LongNameExists() returns (e: Entry, b: Filled)
    ensures Judge(b, e).Accepted? && Parsed(b) == Some([]) && Parsed(Visited(b, e)) == Some([])
  {
    e := Entry(0, 0, PathLookup.File, seq(MAX_NAME + 1, _ => 97));
    b := Filled(seq(65536, _ => 0), 0);
    LongNameLost(e, b);
  }

  // ----- The buffer in place -----

  function Items(e: Entry): seq<seq<U8>> {
    [LeBytes(e.ino, 8), LeBytes(e.off, 8), LeBytes(RecLen(|e.name|), 2), [DirentType(e.kind)], e.name + [0]]
  }

  lemma ItemsSerialize(e: Entry)
    ensures Concat(Items(e)) == Serialized(e)
  {
    var i := Items(e);
    assert Concat(i[4..]) == i[4] + Concat(i[4..][1..]);
    assert Concat(i[3..]) == i[3] + Concat(i[4..]) by { assert i[3..][1..] == i[4..]; }
    assert Concat(i[2..]) == i[2] + Concat(i[3..]) by { assert i[2..][1..] == i[3..]; }
    assert Concat(i[1..]) == i[1] + Concat(i[2..]) by { assert i[1..][1..] == i[2..]; }
  }

  class DirentBufferReader {
    const buffer: array<U8>
    var readLen: nat

    ghost function View(): Filled
      reads this, buffer
    {
      Filled(buffer[..], readLen)
    }

    constructor (buffer: array<U8>)
      ensures this.buffer == buffer && readLen == 0
      ensures Parsed(View()) == Some([])
    {
      this.buffer, readLen := buffer, 0;
    }

    method CopyFromSlice(at: nat, item: seq<U8>)
      requires at + |item| <= buffer.Length
      modifies buffer
      ensures buffer[..] == Patch(old(buffer[..]), at, item)
    {
      for k := 0 to |item|
        invariant buffer[..] == Patch(old(buffer[..]), at, item[..k])
      {
        ghost var before := buffer[..];
        buffer[at + k] := item[k];
        assert buffer[..] == before[at + k := item[k]];
        TakeSnoc(item, k);
        PatchSnoc(old(buffer[..]), at, item[..k], item[k]);
      }
      assert item[..|item|] == item;
    }

    /** The loop over the items of an entry; an item that does not fit is a failing slice. */
    method WriteItems(items: seq<seq<U8>>) returns (fits: bool)
      requires readLen <= buffer.Length
      modifies buffer
      ensures fits <==> readLen + |Concat(items)| <= buffer.Length
      ensures fits ==> buffer[..] == Patch(old(buffer[..]), readLen, Concat(items))
    {
      var offset := 0;
      for i := 0 to |items|
        invariant offset == |Concat(items[..i])| && readLen + offset <= buffer.Length
        invariant buffer[..] == Patch(old(buffer[..]), readLen, Concat(items[..i]))
      {
        ConcatNext(items, i);
        if readLen + offset + |items[i]| > buffer.Length {
          return false;
        }
        PatchPatch(old(buffer[..]), readLen, Concat(items[..i]), items[i]);
        CopyFromSlice(readLen + offset, items[i]);
        offset := offset + |items[i]|;
      }
      assert items[..|items|] == items;
      return true;
    }

    /** Accepts, rejects without a trace, or runs off the end, just as `Judge` says. */
    method Visit(e: Entry) returns (r: Outcome)
      modifies this, buffer
      ensures r == Judge(old(View()), e)
      ensures !r.Panicked? ==> View() == Visited(old(View()), e)
    {
      if 0 in e.name {
        return Rejected(E2BIG);
      }
      if readLen >= buffer.Length || RecLen(|e.name|) > buffer.Length - readLen {
        return Rejected(EINVAL);
      }
      ItemsSerialize(e);
      var fits := WriteItems(Items(e));
      if !fits {
        return Panicked;
      }
      readLen := readLen + RecLen(|e.name|);
      return Accepted;
    }
  }
}
