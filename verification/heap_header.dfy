/** A heap header as one 64-bit word: 62 bits of length, the used bit and the next bit. */
module HeapHeader {
  import opened Arithmetic
  import opened Words
  import opened HeapBlocks

  /** One past the greatest length that a header can hold. */
  const LENGTHS: nat := 0x4000_0000_0000_0000

  function LenMask(): Word {
    Ones(0, 62)
  }

  function New(len: Word, used: bool, hasNext: bool): Word {
    Or(Or(And(len, LenMask()), Bit(used, 62)), Bit(hasNext, 63))
  }

  function Len(w: Word): Word {
    And(w, LenMask())
  }

  function Used(w: Word): bool {
    w[62]
  }

  function HasNext(w: Word): bool {
    w[63]
  }

  /** Reading gives back what was packed, each flag from its bit; a length keeps its lower 62 bits. */
  lemma HeaderFields(len: Word, used: bool, hasNext: bool)
    ensures var w := New(len, used, hasNext);
      Used(w) == w[62] == used && HasNext(w) == w[63] == hasNext && Len(w) == And(len, LenMask()) && w[..62] == len[..62]
  {
    var w := New(len, used, hasNext);
    assert forall i | 0 <= i < 62 :: w[i] == len[i];
    assert forall i | 0 <= i < 64 :: Len(w)[i] == And(len, LenMask())[i];
  }

  /** Packing what was read gives back the word. */
  lemma HeaderWhole(w: Word)
    ensures New(Len(w), Used(w), HasNext(w)) == w
  {
    assert forall i | 0 <= i < 64 :: New(Len(w), Used(w), HasNext(w))[i] == w[i];
  }

  // ----- headers in memory -----

  function Packed(b: Block): Word {
    New(Bits(b.len, 64), b.used, b.hasNext)
  }

  function Unpacked(w: Word): Block {
    Block(Value(Len(w)), Used(w), HasNext(w))
  }

  /** A header says what was written if and only if its length fits into 62 bits. */
  lemma HeaderReads(b: Block)
    ensures Unpacked(Packed(b)) == b <==> b.len < LENGTHS
  {
    HeaderFields(Bits(b.len, 64), b.used, b.hasNext);
    MaskedValue(b.len);
    BitsValue(b.len, 62);
    LengthLimit();
  }

  lemma MaskedValue(n: nat)
    ensures Value(And(Bits(n, 64), LenMask())) == Value(Bits(n, 62))
  {
    var w := And(Bits(n, 64), LenMask());
    BitsPrefix(n, 62, 64);
    assert w[..62] == Bits(n, 62);
    assert w == w[..62] + w[62..];
    ZerosAbove(w[..62], w[62..]);
  }

  lemma LengthLimit()
    ensures Pow2(62) == LENGTHS
  {
    assert Pow2(10) == 1024;
    assert Pow2(20) == 1024 * 1024 by { PowJoin(10, 10); }
    assert Pow2(40) == 0x100_0000_0000 by { PowJoin(20, 20); }
    assert Pow2(60) == 0x1000_0000_0000_0000 by { PowJoin(40, 20); }
  }

  /** The headers of a region no longer than that all say what was written. */
  lemma HeadersRead(s: seq<Area>, lo: nat, hi: nat, a: Area, hasNext: bool)
    requires Tiles(s, lo, hi) && hi - lo <= LENGTHS && a in s
    ensures Unpacked(Packed(HeaderOf(a, hasNext))) == HeaderOf(a, hasNext)
  {
    TilesBounds(s, lo, hi);
    HeaderReads(HeaderOf(a, hasNext));
  }
}
