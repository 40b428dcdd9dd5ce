/** Machine words as bytes, in little-endian order, and the zero-byte test on a whole word. */
module Words {
  type Byte = bv8
  type Word = bv64

  /** The word whose bytes are `b0` (lowest) to `b7`. */
  function Pack(b0: Byte, b1: Byte, b2: Byte, b3: Byte, b4: Byte, b5: Byte, b6: Byte, b7: Byte): Word {
    (b0 as Word) | (b1 as Word << 8) | (b2 as Word << 16) | (b3 as Word << 24)
    | (b4 as Word << 32) | (b5 as Word << 40) | (b6 as Word << 48) | (b7 as Word << 56)
  }

  function WordOf(s: seq<Byte>): Word
    requires |s| == 8
  {
    Pack(s[0], s[1], s[2], s[3], s[4], s[5], s[6], s[7])
  }

  function Low(w: Word): Byte { (w & 0xFF) as Byte }

  function BytesOf(w: Word): (s: seq<Byte>)
    ensures |s| == 8
  {
    [Low(w), Low(w >> 8), Low(w >> 16), Low(w >> 24), Low(w >> 32), Low(w >> 40), Low(w >> 48), Low(w >> 56)]
  }

  lemma PackLow(b0: Byte, b1: Byte, b2: Byte, b3: Byte, b4: Byte, b5: Byte, b6: Byte, b7: Byte)
    ensures var w := Pack(b0, b1, b2, b3, b4, b5, b6, b7);
            Low(w) == b0 && Low(w >> 8) == b1 && Low(w >> 16) == b2 && Low(w >> 24) == b3
  {
  }

  lemma PackHigh(b0: Byte, b1: Byte, b2: Byte, b3: Byte, b4: Byte, b5: Byte, b6: Byte, b7: Byte)
    ensures var w := Pack(b0, b1, b2, b3, b4, b5, b6, b7);
            Low(w >> 32) == b4 && Low(w >> 40) == b5 && Low(w >> 48) == b6 && Low(w >> 56) == b7
  {
  }

  lemma BytesOfPack(b0: Byte, b1: Byte, b2: Byte, b3: Byte, b4: Byte, b5: Byte, b6: Byte, b7: Byte)
    ensures BytesOf(Pack(b0, b1, b2, b3, b4, b5, b6, b7)) == [b0, b1, b2, b3, b4, b5, b6, b7]
  {
    PackLow(b0, b1, b2, b3, b4, b5, b6, b7);
    PackHigh(b0, b1, b2, b3, b4, b5, b6, b7);
  }

  lemma Spelled(s: seq<Byte>)
    requires |s| == 8
    ensures s == [s[0], s[1], s[2], s[3], s[4], s[5], s[6], s[7]]
  {
  }

  lemma BytesOfWordOf(s: seq<Byte>)
    requires |s| == 8
    ensures BytesOf(WordOf(s)) == s
  {
    BytesOfPack(s[0], s[1], s[2], s[3], s[4], s[5], s[6], s[7]);
    Spelled(s);
  }

  /** The word-at-a-time test: a borrow reaches the top bit of a byte only from a zero byte. */
  predicate HasZero(value: Word) {
    (value - 0x0101_0101_0101_0101) & !value & 0x8080_8080_8080_8080 != 0
  }

  lemma HasZeroLanes(w: Word)
    ensures HasZero(w)
       <==> || Low(w) == 0 || Low(w >> 8) == 0 || Low(w >> 16) == 0 || Low(w >> 24) == 0
            || Low(w >> 32) == 0 || Low(w >> 40) == 0 || Low(w >> 48) == 0 || Low(w >> 56) == 0
  {
  }

  /** The test is exact, for every word. */
  lemma HasZeroIff(w: Word)
    ensures HasZero(w) <==> 0 in BytesOf(w)
  {
    HasZeroLanes(w);
    var s := BytesOf(w);
    assert s[0] == 0 || s[1] == 0 || s[2] == 0 || s[3] == 0 || s[4] == 0 || s[5] == 0 || s[6] == 0 || s[7] == 0
      <==> 0 in s;
  }
}
