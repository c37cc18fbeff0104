/** The words of Paging and the entries of PageTables are the same thing: flags, and a 40-bit page number. */
module EntryWords {
  import opened Arithmetic
  import opened Words
  import opened Paging
  import opened PageTables

  lemma Sizes()
    ensures Pow2(40) == FRAMES && Pow2(39) == LOW_FRAMES && Pow2(12) == 4096
  {
    assert Pow2(10) == 1024;
    assert Pow2(20) == 1024 * 1024 by { PowJoin(10, 10); }
    assert Pow2(39) == LOW_FRAMES by { PowJoin(20, 19); PowJoin(10, 9); }
    assert Pow2(12) == 4096;
  }

  /** The number of the page at an address. */
  ghost function PageNumber(addr: Word): nat {
    Value(addr[12..])
  }

  /** An entry read from a word. */
  ghost function EntryOf(w: Word): Entry {
    Entry(FlagsOf(w), Value(w[12..52]))
  }

  /** Storing an address in a word is storing its page number in an entry. */
  lemma StoredEntry(flags: Word, addr: Word)
    ensures EntryOf(ReplaceAddrWith(flags, addr)) == WithFrame(FlagsOf(flags), PageNumber(addr))
  {
    AddressStored(flags, addr);
    StoredField(flags, addr);
    PageNumberLow(addr);
  }

  lemma StoredField(flags: Word, addr: Word)
    ensures ReplaceAddrWith(flags, addr)[12..52] == addr[12..52]
  {
    var w := ReplaceAddrWith(flags, addr);
    assert forall i | 12 <= i < 52 :: w[i] == addr[i];
  }

  lemma PageNumberLow(addr: Word)
    ensures PageNumber(addr) % FRAMES == Value(addr[12..52])
  {
    Sizes();
    assert addr[12..] == addr[12..52] + addr[52..];
    ValueJoin(addr[12..52], addr[52..]);
    ValueBound(addr[12..52]);
    LowPart(Value(addr[12..52]), Value(addr[52..]));
  }

  lemma LowPart(x: nat, y: nat)
    requires x < FRAMES
    ensures (x + FRAMES * y) % FRAMES == x
  {
  }

  /** The page that an entry refers to is the page of the address read from its word. */
  lemma EntryPage(w: Word)
    ensures PageOf(EntryOf(w)) == PageNumber(Address(w))
  {
    AddressParts(w);
    FrameParts(w);
    HighPart(w);
  }

  lemma AddressParts(w: Word)
    ensures PageNumber(Address(w)) == Value(w[12..52]) + FRAMES * Value(Address(w)[52..])
  {
    var a := Address(w);
    AddressBits(w);
    Sizes();
    assert a[12..] == w[12..52] + a[52..];
    ValueJoin(w[12..52], a[52..]);
  }

  lemma FrameParts(w: Word)
    ensures Value(w[12..52]) == Value(w[12..51]) + (if w[51] then LOW_FRAMES else 0) && Value(w[12..51]) < LOW_FRAMES
  {
    Sizes();
    assert w[12..52] == w[12..51] + [w[51]];
    ValueJoin(w[12..51], [w[51]]);
    ValueBound(w[12..51]);
    assert Value([w[51]]) == if w[51] then 1 else 0;
  }

  lemma HighPart(w: Word)
    ensures Value(Address(w)[52..]) == if w[51] then 4095 else 0
  {
    AddressBits(w);
    Sizes();
    if w[51] {
      AllSet(Address(w)[52..]);
    } else {
      AllClear(Address(w)[52..]);
    }
  }

  /** The masked and shifted index of a word is the table index of the number it stands for. */
  lemma IndexWord(va: Word, i: nat)
    requires i < 4
    ensures Value(LevelIndex(va, i)) == Index(Value(va), i)
  {
    var shift := (3 - i) * 9 + 12;
    var low, mid, high := va[..shift], va[shift..shift + 9], va[shift + 9..];
    IndexField(va, i);
    assert va == low + (mid + high);
    ValueJoin(low, mid + high);
    ValueJoin(mid, high);
    ValueBound(low);
    ValueBound(mid);
    LevelSizes(i);
    Digit(Value(low), Value(mid), Value(high), Pow2(shift));
  }

  lemma IndexField(va: Word, i: nat)
    requires i < 4
    ensures Value(LevelIndex(va, i)) == Value(va[(3 - i) * 9 + 12..(3 - i) * 9 + 21])
  {
    var shift, w := (3 - i) * 9 + 12, LevelIndex(va, i);
    LevelBits(va, i);
    assert w[..9] == va[shift..shift + 9];
    assert w == w[..9] + w[9..];
    ValueJoin(w[..9], w[9..]);
    AllClear(w[9..]);
  }

  lemma LevelSizes(i: nat)
    requires i < 4
    ensures Pow2((3 - i) * 9 + 12) == SIZES[i] && Pow2(9) == 512
  {
    assert Pow2(9) == 512;
    Sizes();
    PowJoin(9, 12);
    PowJoin(9, 21);
    PowJoin(9, 30);
  }

  lemma Digit(low: nat, mid: nat, high: nat, size: nat)
    requires size > 0 && low < size && mid < 512
    ensures (low + size * (mid + 512 * high)) / size % 512 == mid
  {
    Divides(low, mid + 512 * high, size);
  }

  lemma Divides(low: nat, n: nat, size: nat)
    requires size > 0 && low < size
    ensures (low + size * n) / size == n
  {
    Quotient(low + size * n, size, n);
  }
}
