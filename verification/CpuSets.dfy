/**
  The CPU bitmaps of `sched_getaffinity` and `sched_setaffinity`: 64-bit parts in user memory, the
  part after the CPUs that exist cut off.
 */
module CpuSets {
  import opened BitMasks
  import opened UserBuffers
  import opened Wrappers

  const SIZE_OF_PART: nat := 8
  const CPUS_IN_PART: nat := 64

  // ----- Bits -----

  function BitOr(a: nat, b: nat): nat {
    if a == 0 && b == 0 then 0
    else 2 * BitOr(a / 2, b / 2) + (if a % 2 == 1 || b % 2 == 1 then 1 else 0)
  }

  predicate Bit(x: nat, k: nat) {
    if k == 0 then x % 2 == 1 else Bit(x / 2, k - 1)
  }

  lemma {:induction false} ZeroBit(k: nat)
    ensures !Bit(0, k)
  {
    if k > 0 { ZeroBit(k - 1); }
  }

  lemma {:induction false} PowerBit(k: nat, j: nat)
    ensures Bit(Pow2(k), j) <==> j == k
  {
    if k == 0 {
      if j > 0 { ZeroBit(j - 1); }
    } else if j > 0 {
      assert Pow2(k) / 2 == Pow2(k - 1);
      PowerBit(k - 1, j - 1);
    }
  }

  lemma {:induction false} OrBit(a: nat, b: nat, j: nat)
    ensures Bit(BitOr(a, b), j) <==> Bit(a, j) || Bit(b, j)
    decreases j
  {
    if a == 0 && b == 0 {
      ZeroBit(j);
    } else if j > 0 {
      OrBit(a / 2, b / 2, j - 1);
    }
  }

  /** Testing a bit with a one-bit mask. */
  lemma {:induction false} MaskTest(a: nat, k: nat)
    ensures BitAnd(a, Pow2(k)) != 0 <==> Bit(a, k)
  {
    if a == 0 {
      ZeroBit(k);
    } else if k == 0 {
      assert BitAnd(a, 1) == 2 * BitAnd(a / 2, 0) + (if a % 2 == 1 then 1 else 0);
    } else {
      assert Pow2(k) / 2 == Pow2(k - 1) && Pow2(k) % 2 == 0;
      MaskTest(a / 2, k - 1);
    }
  }

  // ----- Bitmaps -----

  /** The CPU of bit `bit` in part `part`. */
  function Cpu(part: nat, bit: nat): nat { part * CPUS_IN_PART + bit }

  lemma CpuOf(c: nat)
    ensures Cpu(c / CPUS_IN_PART, c % CPUS_IN_PART) == c
  {
  }

  /** The parts that user buffer and machine have in common. */
  function NrParts(size: nat, numCpus: nat): nat {
    Min(size / SIZE_OF_PART, (numCpus + CPUS_IN_PART - 1) / CPUS_IN_PART)
  }

  /** The parts fit the buffer, none lies wholly beyond the CPUs, and they are as many as that allows. */
  lemma NrPartsExact(size: nat, numCpus: nat)
    ensures var nr := NrParts(size, numCpus);
            && nr * SIZE_OF_PART <= size && nr * CPUS_IN_PART < numCpus + CPUS_IN_PART
            && (numCpus <= nr * CPUS_IN_PART || size < (nr + 1) * SIZE_OF_PART)
  {
    var cpuParts := (numCpus + CPUS_IN_PART - 1) / CPUS_IN_PART;
    assert cpuParts * CPUS_IN_PART <= numCpus + CPUS_IN_PART - 1 < (cpuParts + 1) * CPUS_IN_PART;
  }

  /** `part` is the part number `p` of the bitmap of `ids`. */
  ghost predicate IsPart(part: nat, p: nat, ids: seq<nat>) {
    forall b {:trigger Bit(part, b)} :: 0 <= b < CPUS_IN_PART ==> (Bit(part, b) <==> Cpu(p, b) in ids)
  }

  /** CPU sets are iterated in ascending order. */
  ghost predicate Ascending(ids: seq<nat>) {
    forall i, j :: 0 <= i < j < |ids| ==> ids[i] < ids[j]
  }

  function Members(ids: seq<nat>): set<nat> { set c | c in ids }

  /** The CPUs of a bitmap that exist. */
  ghost function CpusIn(parts: seq<nat>, numCpus: nat): set<nat> {
    set c | 0 <= c < numCpus && c / CPUS_IN_PART < |parts| && Bit(parts[c / CPUS_IN_PART], c % CPUS_IN_PART)
  }

  // ----- Writing -----

  /** Between two CPUs: the parts before `|out|` are written, `part` has the bits of `ids[..i]`. */
  ghost predicate Writing(ids: seq<nat>, i: nat, part: nat, out: seq<nat>) {
    && i <= |ids|
    && (forall p :: 0 <= p < |out| ==> IsPart(out[p], p, ids))
    && IsPart(part, |out|, ids[..i])
    && (forall k :: 0 <= k < i ==> ids[k] / CPUS_IN_PART <= |out|)
    && (forall k :: i <= k < |ids| ==> ids[k] / CPUS_IN_PART >= |out|)
  }

  lemma NextPart(ids: seq<nat>, i: nat, part: nat, out: seq<nat>)
    requires Writing(ids, i, part, out)
    requires forall k :: i <= k < |ids| ==> ids[k] / CPUS_IN_PART > |out|
    ensures Writing(ids, i, 0, out + [part])
  {
    forall b | 0 <= b < CPUS_IN_PART ensures Cpu(|out|, b) in ids <==> Cpu(|out|, b) in ids[..i] {
      assert Cpu(|out|, b) / CPUS_IN_PART == |out|;
    }
    forall b | 0 <= b < CPUS_IN_PART ensures !Bit(0, b) && Cpu(|out| + 1, b) !in ids[..i] {
      ZeroBit(b);
      assert Cpu(|out| + 1, b) / CPUS_IN_PART == |out| + 1;
    }
  }

  lemma AddBit(ids: seq<nat>, i: nat, part: nat, out: seq<nat>)
    requires Writing(ids, i, part, out) && i < |ids| && ids[i] / CPUS_IN_PART == |out|
    ensures Writing(ids, i + 1, BitOr(part, Pow2(ids[i] % CPUS_IN_PART)), out)
  {
    var id := ids[i];
    var bit := id % CPUS_IN_PART;
    assert ids[..i + 1] == ids[..i] + [id];
    forall b | 0 <= b < CPUS_IN_PART
      ensures Bit(BitOr(part, Pow2(bit)), b) <==> Cpu(|out|, b) in ids[..i + 1]
    {
      OrBit(part, Pow2(bit), b);
      PowerBit(bit, b);
      assert Cpu(|out|, b) == id <==> b == bit;
    }
  }

  /** The written parts are exactly the bitmap of the set; a fault stops the writing. */
  ghost predicate WriteOutcome(ids: seq<nat>, nr: nat, faults: set<nat>, r: Result<nat, Errno>, out: seq<nat>) {
    && |out| <= nr
    && (forall p :: 0 <= p < |out| ==> p !in faults && IsPart(out[p], p, ids))
    && match r
       case Ok(n) => |out| == nr && n == nr * SIZE_OF_PART
       case Err(e) => |out| < nr && |out| in faults && e == EFAULT
  }

  method WriteCpuSetTo(ids: seq<nat>, numCpus: nat, size: nat, faults: set<nat>)
    returns (r: Result<nat, Errno>, out: seq<nat>)
    requires Ascending(ids)
    ensures size == 0 ==> r == Err(EINVAL) && out == []
    ensures size > 0 ==> WriteOutcome(ids, NrParts(size, numCpus), faults, r, out)
    ensures r.Ok? ==>
              && r.value == |out| * SIZE_OF_PART <= size && |out| * CPUS_IN_PART < numCpus + CPUS_IN_PART
              && (numCpus <= |out| * CPUS_IN_PART || size < (|out| + 1) * SIZE_OF_PART)
  {
    out := [];
    if size == 0 {
      return Err(EINVAL), out;
    }
    var nr := NrParts(size, numCpus);
    NrPartsExact(size, numCpus);
    var userPart := 0;
    var i := 0;
    forall b | 0 <= b < CPUS_IN_PART ensures !Bit(0, b) { ZeroBit(b); }
    while i < |ids|
      invariant Writing(ids, i, userPart, out) && |out| <= nr
      invariant forall p :: 0 <= p < |out| ==> p !in faults
    {
      var id := ids[i];
      while |out| < Min(id / CPUS_IN_PART, nr)
        invariant Writing(ids, i, userPart, out) && |out| <= nr
        invariant forall p :: 0 <= p < |out| ==> p !in faults
      {
        if |out| in faults {
          return Err(EFAULT), out;
        }
        NextPart(ids, i, userPart, out);
        out, userPart := out + [userPart], 0;
      }
      if |out| >= nr {
        break;
      }
      AddBit(ids, i, userPart, out);
      userPart := BitOr(userPart, Pow2(id % CPUS_IN_PART));
      i := i + 1;
    }
    while |out| < nr
      invariant |out| <= nr && (|out| < nr ==> Writing(ids, |ids|, userPart, out))
      invariant forall p :: 0 <= p < |out| ==> p !in faults && IsPart(out[p], p, ids)
    {
      if |out| in faults {
        return Err(EFAULT), out;
      }
      NextPart(ids, |ids|, userPart, out);
      out, userPart := out + [userPart], 0;
    }
    r := Ok(nr * SIZE_OF_PART);
  }

  // ----- Reading -----

  /** The CPUs below `limit` that exist and whose bits are set. */
  ghost function CpusBelow(parts: seq<nat>, numCpus: nat, limit: nat): set<nat>
    requires limit <= |parts| * CPUS_IN_PART
  {
    set c | 0 <= c < numCpus && c < limit && Bit(parts[c / CPUS_IN_PART], c % CPUS_IN_PART)
  }

  lemma NextCpu(parts: seq<nat>, numCpus: nat, p: nat, b: nat)
    requires p < |parts| && b < CPUS_IN_PART
    ensures Cpu(p, b) + 1 <= |parts| * CPUS_IN_PART
    ensures CpusBelow(parts, numCpus, Cpu(p, b) + 1)
         == CpusBelow(parts, numCpus, Cpu(p, b)) + (if Bit(parts[p], b) && Cpu(p, b) < numCpus then {Cpu(p, b)} else {})
  {
    assert Cpu(p, b) / CPUS_IN_PART == p && Cpu(p, b) % CPUS_IN_PART == b;
  }

  /** The CPUs of the bitmap that exist; none at all is an error. */
  function Checked(cpus: set<nat>): Result<set<nat>, Errno> {
    if cpus == {} then Err(EINVAL) else Ok(cpus)
  }

  lemma MorePartsSame(parts: seq<nat>, part: nat, numCpus: nat)
    ensures CpusBelow(parts, numCpus, Cpu(|parts|, 0)) == CpusBelow(parts + [part], numCpus, Cpu(|parts|, 0))
  {
  }

  /** The bits of one part, those of CPUs that do not exist ignored. */
  method ReadPart(userPart: nat, p: nat, numCpus: nat, before: set<nat>, ghost parts: seq<nat>) returns (cpus: set<nat>)
    requires p < |parts| && parts[p] == userPart && before == CpusBelow(parts, numCpus, Cpu(p, 0))
    ensures cpus == CpusBelow(parts, numCpus, Cpu(p + 1, 0))
  {
    cpus := before;
    for b := 0 to CPUS_IN_PART
      invariant cpus == CpusBelow(parts, numCpus, Cpu(p, b))
    {
      MaskTest(userPart, b);
      NextCpu(parts, numCpus, p, b);
      if BitAnd(userPart, Pow2(b)) != 0 && Cpu(p, b) < numCpus {
        cpus := cpus + {Cpu(p, b)};
      }
    }
  }

  /** A part of user memory that cannot be read is `None`. */
  method ReadCpuSetFrom(memory: seq<Option<nat>>, numCpus: nat, size: nat) returns (r: Result<set<nat>, Errno>)
    ensures var nr := NrParts(size, numCpus);
            r == if size == 0 then Err(EINVAL)
                 else if nr > |memory| || !Readable(memory[..nr]) then Err(EFAULT)
                 else Checked(CpusIn(Values(memory[..nr]), numCpus))
  {
    if size == 0 {
      return Err(EINVAL);
    }
    var nr := NrParts(size, numCpus);
    var cpus: set<nat> := {};
    for p := 0 to nr
      invariant p <= |memory| && Readable(memory[..p])
      invariant cpus == CpusBelow(Values(memory[..p]), numCpus, Cpu(p, 0))
    {
      if p >= |memory| || memory[p].None? {
        return Err(EFAULT);
      }
      MorePartsSame(Values(memory[..p]), memory[p].value, numCpus);
      assert Values(memory[..p + 1]) == Values(memory[..p]) + [memory[p].value];
      cpus := ReadPart(memory[p].value, p, numCpus, cpus, Values(memory[..p + 1]));
    }
    assert cpus == CpusIn(Values(memory[..nr]), numCpus);
    r := Checked(cpus);
  }

  /** Reading back a written bitmap gives the CPUs of the set that lie in the parts written. */
  lemma ReadBack(ids: seq<nat>, numCpus: nat, parts: seq<nat>)
    requires forall c :: c in ids ==> c < numCpus
    requires forall p :: 0 <= p < |parts| ==> IsPart(parts[p], p, ids)
    ensures CpusIn(parts, numCpus) == set c | c in ids && c / CPUS_IN_PART < |parts|
  {
    forall c: nat | c < numCpus && c / CPUS_IN_PART < |parts|
      ensures Bit(parts[c / CPUS_IN_PART], c % CPUS_IN_PART) <==> c in ids
    {
      CpuOf(c);
      assert IsPart(parts[c / CPUS_IN_PART], c / CPUS_IN_PART, ids);
    }
  }

  /** The bits of the set survive exactly when no CPU of it lies beyond the user's buffer. */
  lemma BitsSurviveIff(ids: seq<nat>, numCpus: nat, size: nat, parts: seq<nat>)
    requires forall c :: c in ids ==> c < numCpus
    requires |parts| == NrParts(size, numCpus) && forall p :: 0 <= p < |parts| ==> IsPart(parts[p], p, ids)
    ensures CpusIn(parts, numCpus) == Members(ids)
       <==> forall c :: c in ids ==> c / CPUS_IN_PART < size / SIZE_OF_PART
  {
    ReadBack(ids, numCpus, parts);
    var kept, all := (set c | c in ids && c / CPUS_IN_PART < |parts|), Members(ids);
    forall c | c in ids ensures c / CPUS_IN_PART < |parts| <==> c / CPUS_IN_PART < size / SIZE_OF_PART {
    }
    if kept == all {
      forall c | c in ids ensures c / CPUS_IN_PART < size / SIZE_OF_PART {
        assert c in all;
      }
    }
  }

  /**
    Reading back what was written returns the set exactly when the set is not empty and none of
    its CPUs lies beyond the user's buffer.
   */
  lemma RoundTripIff(ids: seq<nat>, numCpus: nat, size: nat, parts: seq<nat>)
    requires forall c :: c in ids ==> c < numCpus
    requires |parts| == NrParts(size, numCpus) && forall p :: 0 <= p < |parts| ==> IsPart(parts[p], p, ids)
    ensures Checked(CpusIn(parts, numCpus)) == Ok(Members(ids))
       <==> ids != [] && forall c :: c in ids ==> c / CPUS_IN_PART < size / SIZE_OF_PART
  {
    BitsSurviveIff(ids, numCpus, size, parts);
    if ids != [] { assert ids[0] in Members(ids); }
  }

  /** A buffer for all CPUs and a non-empty set: the set comes back. */
  lemma RoundTrip(ids: seq<nat>, numCpus: nat, size: nat, parts: seq<nat>)
    requires ids != [] && forall c :: c in ids ==> c < numCpus
    requires size / SIZE_OF_PART * CPUS_IN_PART >= numCpus
    requires |parts| == NrParts(size, numCpus) && forall p :: 0 <= p < |parts| ==> IsPart(parts[p], p, ids)
    ensures Checked(CpusIn(parts, numCpus)) == Ok(Members(ids))
  {
    RoundTripIff(ids, numCpus, size, parts);
    forall c | c in ids ensures c / CPUS_IN_PART < size / SIZE_OF_PART {
    }
  }

  /** The empty set is written as zero, and reading that back is an error. */
  lemma EmptySetRejected()
    ensures NrParts(8, 64) == 1 && IsPart(0, 0, []) && Checked(CpusIn([0], 64)) == Err(EINVAL)
  {
    forall b | 0 <= b < CPUS_IN_PART ensures !Bit(0, b) {
      ZeroBit(b);
    }
    ReadBack([], 64, [0]);
  }

  /** With 128 CPUs and a buffer of 8 bytes, CPU 64 of the set {3, 64} is lost. */
  lemma CpuBeyondBufferLost()
    ensures NrParts(8, 128) == 1 && IsPart(8, 0, [3, 64])
    ensures Checked(CpusIn([8], 128)) == Ok({3}) && Members([3, 64]) == {3, 64}
  {
    assert Pow2(3) == 8;
    forall b | 0 <= b < CPUS_IN_PART ensures Bit(8, b) <==> b == 3 {
      PowerBit(3, b);
    }
    ReadBack([3, 64], 128, [8]);
    assert CpusIn([8], 128) == {3};
  }
}
