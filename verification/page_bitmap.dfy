/** The physical-page bitmap: one bit per page, most significant bit first, set when the page is held. */
module PageBitmap {

  function Mask(k: nat): bv8
    requires k < 8
  {
    if k == 0 then 0x80 else if k == 1 then 0x40 else if k == 2 then 0x20 else if k == 3 then 0x10
    else if k == 4 then 0x08 else if k == 5 then 0x04 else if k == 6 then 0x02 else 0x01
  }

  function BitAt(b: bv8, k: nat): bool
    requires k < 8
  {
    b & Mask(k) != 0
  }

  /** Bit `k` counts from the most significant one. */
  lemma BitFromTop(b: bv8, k: nat)
    requires k < 8
    ensures BitAt(b, k) <==> b & ((0x80 as bv8) >> k) != 0
  {
    assert Mask(k) == (0x80 as bv8) >> k;
  }

  function LeadingZeros(b: bv8): nat {
    if b & 0x80 != 0 then 0 else if b & 0x40 != 0 then 1 else if b & 0x20 != 0 then 2 else if b & 0x10 != 0 then 3
    else if b & 0x08 != 0 then 4 else if b & 0x04 != 0 then 5 else if b & 0x02 != 0 then 6 else if b & 0x01 != 0 then 7
    else 8
  }

  function One(clear: bool): nat {
    if clear then 1 else 0
  }

  /** The number of zeros among the first `n` bits. */
  function CountZeros(b: bv8, n: nat := 8): nat
    requires n <= 8
  {
    if n == 0 then 0 else CountZeros(b, n - 1) + One(!BitAt(b, n - 1))
  }

  /** The bits of a byte, most significant first. */
  ghost function ByteBits(b: bv8, n: nat := 8): (row: seq<bool>)
    requires n <= 8
    ensures |row| == n
  {
    if n == 0 then [] else ByteBits(b, n - 1) + [BitAt(b, n - 1)]
  }

  lemma {:induction false} ByteBit(b: bv8, n: nat, k: nat)
    requires k < n <= 8
    ensures ByteBits(b, n)[k] == BitAt(b, k)
  {
    if k < n - 1 {
      ByteBit(b, n - 1, k);
    }
  }

  ghost predicate AllSet(row: seq<bool>) {
    forall k | 0 <= k < |row| :: row[k]
  }

  ghost predicate FirstUnset(row: seq<bool>, k: nat) {
    k < |row| && !row[k] && forall j | 0 <= j < k :: row[j]
  }

  lemma FullByte(b: bv8)
    ensures b == 0xFF <==> AllSet(ByteBits(b))
  {
    forall k | 0 <= k < 8
      ensures ByteBits(b)[k] == BitAt(b, k)
    {
      ByteBit(b, 8, k);
    }
    FullIff(b);
  }

  lemma FullIff(b: bv8)
    ensures b == 0xFF <==> forall k: nat | k < 8 :: BitAt(b, k)
  {
    if forall k: nat | k < 8 :: BitAt(b, k) {
      assert BitAt(b, 0) && BitAt(b, 1) && BitAt(b, 2) && BitAt(b, 3);
      assert BitAt(b, 4) && BitAt(b, 5) && BitAt(b, 6) && BitAt(b, 7);
    }
  }

  /** The leading zeros of the complement count the set bits in front of the first clear one. */
  lemma FirstClear(b: bv8)
    requires b != 0xFF
    ensures FirstUnset(ByteBits(b), LeadingZeros(!b))
  {
    ClearBit(b);
    forall k | 0 <= k < 8
      ensures ByteBits(b)[k] == BitAt(b, k)
    {
      ByteBit(b, 8, k);
    }
  }

  /** The place of the first clear bit. */
  method LeadingOnes(b: bv8) returns (k: nat)
    requires b != 0xFF
    ensures FirstUnset(ByteBits(b), k)
  {
    FirstClear(b);
    k := LeadingZeros(!b);
  }

  lemma ClearBit(b: bv8)
    requires b != 0xFF
    ensures LeadingZeros(!b) < 8 && !BitAt(b, LeadingZeros(!b))
    ensures forall k: nat | k < LeadingZeros(!b) :: BitAt(b, k)
  {
  }

  lemma SetOne(b: bv8, k: nat)
    requires k < 8
    ensures forall j: nat | j < 8 :: BitAt(b | Mask(k), j) == (j == k || BitAt(b, j))
  {
  }

  lemma ClearOne(b: bv8, k: nat)
    requires k < 8
    ensures forall j: nat | j < 8 :: BitAt(b & !Mask(k), j) == (j != k && BitAt(b, j))
  {
  }

  /** The bitmap as a sequence of bits. */
  ghost function BitsOf(bytes: seq<bv8>): (bits: seq<bool>)
    ensures |bits| == 8 * |bytes|
  {
    if bytes == [] then [] else BitsOf(bytes[..|bytes| - 1]) + ByteBits(bytes[|bytes| - 1])
  }

  lemma {:induction false} RowOf(bytes: seq<bv8>, i: nat)
    requires i < |bytes|
    ensures BitsOf(bytes)[8 * i..8 * i + 8] == ByteBits(bytes[i])
  {
    var last := |bytes| - 1;
    if i < last {
      RowOf(bytes[..last], i);
      assert BitsOf(bytes)[8 * i..8 * i + 8] == BitsOf(bytes[..last])[8 * i..8 * i + 8];
    }
  }

  lemma RowBit(bits: seq<bool>, lo: nat, row: seq<bool>, k: nat)
    requires lo + 8 <= |bits| && bits[lo..lo + 8] == row && k < 8
    ensures bits[lo + k] == row[k]
  {
    assert bits[lo..lo + 8][k] == bits[lo + k];
  }

  lemma BitOf(bytes: seq<bv8>, i: nat, k: nat)
    requires i < |bytes| && k < 8
    ensures BitsOf(bytes)[8 * i + k] == BitAt(bytes[i], k)
  {
    RowOf(bytes, i);
    RowBit(BitsOf(bytes), 8 * i, ByteBits(bytes[i]), k);
    ByteBit(bytes[i], 8, k);
  }

  lemma BitsSet(bytes: seq<bv8>, i: nat, k: nat)
    requires i < |bytes| && k < 8
    ensures BitsOf(bytes[i := bytes[i] | Mask(k)]) == BitsOf(bytes)[8 * i + k := true]
  {
    SetOne(bytes[i], k);
    BitsUpdate(bytes, i, k, bytes[i] | Mask(k), true);
  }

  lemma BitsClear(bytes: seq<bv8>, i: nat, k: nat)
    requires i < |bytes| && k < 8
    ensures BitsOf(bytes[i := bytes[i] & !Mask(k)]) == BitsOf(bytes)[8 * i + k := false]
  {
    ClearOne(bytes[i], k);
    BitsUpdate(bytes, i, k, bytes[i] & !Mask(k), false);
  }

  lemma BitsUpdate(bytes: seq<bv8>, i: nat, k: nat, b: bv8, on: bool)
    requires i < |bytes| && k < 8
    requires forall j: nat | j < 8 :: BitAt(b, j) == if j == k then on else BitAt(bytes[i], j)
    ensures BitsOf(bytes[i := b]) == BitsOf(bytes)[8 * i + k := on]
  {
    var now, wanted := BitsOf(bytes[i := b]), BitsOf(bytes)[8 * i + k := on];
    forall m | 0 <= m < |now|
      ensures now[m] == wanted[m]
    {
      BitOf(bytes[i := b], m / 8, m % 8);
      BitOf(bytes, m / 8, m % 8);
      Position(m, i, k);
    }
  }

  lemma Position(m: nat, i: nat, k: nat)
    requires k < 8
    ensures m == 8 * i + k <==> m / 8 == i && m % 8 == k
  {
  }

  // ----- counting -----

  ghost function ClearCount(bits: seq<bool>): nat {
    if bits == [] then 0 else ClearCount(bits[..|bits| - 1]) + One(!bits[|bits| - 1])
  }

  lemma {:induction false} CountUpdate(bits: seq<bool>, i: nat, on: bool)
    requires i < |bits|
    ensures ClearCount(bits[i := on]) == ClearCount(bits) - One(!bits[i]) + One(!on)
  {
    var last := |bits| - 1;
    if i == last {
      assert bits[i := on][..last] == bits[..last];
    } else {
      CountUpdate(bits[..last], i, on);
      assert bits[i := on][..last] == bits[..last][i := on];
    }
  }

  lemma {:induction false} NoneClear(bits: seq<bool>)
    ensures ClearCount(bits) == 0 <==> forall i | 0 <= i < |bits| :: bits[i]
  {
    if bits != [] {
      NoneClear(bits[..|bits| - 1]);
    }
  }

  lemma {:induction false} CountRow(bits: seq<bool>, b: bv8, n: nat)
    requires n <= 8
    ensures ClearCount(bits + ByteBits(b, n)) == ClearCount(bits) + CountZeros(b, n)
  {
    if n == 0 {
      assert bits + ByteBits(b, 0) == bits;
    } else {
      CountRow(bits, b, n - 1);
      assert (bits + ByteBits(b, n))[..|bits| + n - 1] == bits + ByteBits(b, n - 1);
    }
  }

  /** The sum of the zero bits of the bytes is the number of clear bits of the bitmap. */
  method CountFreePages(bytes: seq<bv8>) returns (n: nat)
    ensures n == ClearCount(BitsOf(bytes))
  {
    n := 0;
    assert BitsOf(bytes[..0]) == [];
    for i := 0 to |bytes|
      invariant n == ClearCount(BitsOf(bytes[..i]))
    {
      NextByte(bytes, i);
      CountRow(BitsOf(bytes[..i]), bytes[i], 8);
      n := n + CountZeros(bytes[i]);
    }
    assert bytes[..|bytes|] == bytes;
  }

  lemma NextByte(bytes: seq<bv8>, i: nat)
    requires i < |bytes|
    ensures BitsOf(bytes[..i + 1]) == BitsOf(bytes[..i]) + ByteBits(bytes[i])
  {
    assert bytes[..i + 1][..i] == bytes[..i];
  }
}
