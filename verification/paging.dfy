/** Page-table entries as 64-bit words: their flags, their address, and the four table indices of an address. */
module Paging {
  import opened Words

  datatype PageFlags = PageFlags(
    present: bool, writable: bool, userAccessable: bool, writeThroughCachingEnabled: bool, cacheDisabled: bool,
    accessed: bool, dirty: bool, hugePage: bool, global: bool, noExecute: bool)

  datatype PageTableData = PageTableData(flags: PageFlags, physicalAddress: Word)

  /** Bits 51 to 12. */
  function AddressMask(): Word {
    Ones(12, 52)
  }

  /** Bits 8 to 0 and bit 63. */
  function FlagsMask(): Word {
    Or(Ones(0, 9), Ones(63, 64))
  }

  /** The flags that are packed into the lowest bits, in order. */
  function LowFlags(f: PageFlags): seq<bool> {
    [f.present, f.writable, f.userAccessable, f.writeThroughCachingEnabled, f.cacheDisabled, f.accessed, f.dirty,
     f.hugePage, f.global]
  }

  /** Each flag moved to its place, all of them or-ed together. */
  function OrBits(flags: seq<bool>): Word {
    if flags == [] then ZERO else Or(OrBits(flags[..|flags| - 1]), Bit(flags[|flags| - 1], |flags| - 1))
  }

  function FlagsWord(f: PageFlags): Word {
    Or(OrBits(LowFlags(f)), Bit(f.noExecute, 63))
  }

  function FromData(d: PageTableData): Word {
    Or(FlagsWord(d.flags), And(d.physicalAddress, AddressMask()))
  }

  function FlagsOf(entry: Word): PageFlags {
    PageFlags(entry[0], entry[1], entry[2], entry[3], entry[4], entry[5], entry[6], entry[7], entry[8], entry[63])
  }

  /** The address field as a number: bits 51 to 12, moved down. */
  function AddressUnextended(entry: Word): Word {
    And(ShiftRight(entry, 12), Ones(0, 40))
  }

  /** The address field in its place; if its top bit is set, so are the bits above it. */
  function Address(entry: Word): Word {
    var unextended := ShiftLeft(AddressUnextended(entry), 12);
    if unextended[51] then Or(unextended, Ones(52, 64)) else unextended
  }

  function ReplaceFlagsWith(entry: Word, flags: Word): Word {
    Or(And(entry, AddressMask()), And(flags, FlagsMask()))
  }

  function ReplaceAddrWith(entry: Word, addr: Word): Word {
    Or(And(addr, AddressMask()), And(entry, FlagsMask()))
  }

  /** Page aligned, with bits 63 to 52 equal to bit 51. */
  ghost predicate Canonical(addr: Word) {
    (forall i | 0 <= i < 12 :: !addr[i]) && forall i | 52 <= i < 64 :: addr[i] == addr[51]
  }

  lemma AddressBits(entry: Word)
    ensures forall i | 0 <= i < 64 :: Address(entry)[i] == if i < 12 then false else if i < 52 then entry[i] else entry[51]
  {
    var u := ShiftLeft(AddressUnextended(entry), 12);
    forall i | 0 <= i < 64
      ensures u[i] == (12 <= i < 52 && entry[i])
    {
    }
  }

  /** An address survives being stored in an entry if and only if it is canonical; the flags stay. */
  lemma AddressStored(entry: Word, addr: Word)
    ensures Address(ReplaceAddrWith(entry, addr)) == addr <==> Canonical(addr)
    ensures FlagsOf(ReplaceAddrWith(entry, addr)) == FlagsOf(entry)
  {
    var stored := ReplaceAddrWith(entry, addr);
    AddressBits(stored);
    assert forall i | 12 <= i < 52 :: stored[i] == addr[i];
    if Canonical(addr) {
      assert forall i | 0 <= i < 64 :: Address(stored)[i] == addr[i];
    }
  }

  /** Replacing the flags keeps the address. */
  lemma FlagsStored(entry: Word, flags: Word)
    ensures Address(ReplaceFlagsWith(entry, flags)) == Address(entry)
    ensures FlagsOf(ReplaceFlagsWith(entry, flags)) == FlagsOf(flags)
  {
    var stored := ReplaceFlagsWith(entry, flags);
    AddressBits(stored);
    AddressBits(entry);
    assert forall i | 12 <= i < 52 :: stored[i] == entry[i];
    assert forall i | 0 <= i < 64 :: Address(stored)[i] == Address(entry)[i];
  }

  lemma {:induction false} OrBitsAt(flags: seq<bool>, i: nat)
    requires i < 64 && |flags| <= 64
    ensures OrBits(flags)[i] == (i < |flags| && flags[i])
  {
    if flags != [] {
      OrBitsAt(flags[..|flags| - 1], i);
    }
  }

  lemma PackedBits(low: seq<bool>, high: bool)
    requires |low| == 9
    ensures forall i | 0 <= i < 64 :: Or(OrBits(low), Bit(high, 63))[i] == if i < 9 then low[i] else i == 63 && high
  {
    forall i | 0 <= i < 64
      ensures OrBits(low)[i] == (i < 9 && low[i])
    {
      OrBitsAt(low, i);
    }
  }

  lemma ReadBack(w: Word, f: PageFlags)
    requires (forall i | 0 <= i < 9 :: w[i] == LowFlags(f)[i]) && w[63] == f.noExecute
    ensures FlagsOf(w) == f
  {
    var low := LowFlags(f);
    assert w[0] == low[0] && w[1] == low[1] && w[2] == low[2] && w[3] == low[3] && w[4] == low[4];
    assert w[5] == low[5] && w[6] == low[6] && w[7] == low[7] && w[8] == low[8];
  }

  lemma FlagsWordBits(f: PageFlags)
    ensures FlagsOf(FlagsWord(f)) == f && forall i | 9 <= i < 63 :: !FlagsWord(f)[i]
  {
    PackedBits(LowFlags(f), f.noExecute);
    ReadBack(FlagsWord(f), f);
  }

  /** Each flag has its bit in the word. */
  lemma FlagPlaces(f: PageFlags)
    ensures var w := FlagsWord(f);
      && w[0] == f.present && w[1] == f.writable && w[2] == f.userAccessable && w[3] == f.writeThroughCachingEnabled
      && w[4] == f.cacheDisabled && w[5] == f.accessed && w[6] == f.dirty && w[7] == f.hugePage && w[8] == f.global
      && w[63] == f.noExecute
  {
    FlagsWordBits(f);
    var w := FlagsWord(f);
    assert FlagsOf(w) == PageFlags(w[0], w[1], w[2], w[3], w[4], w[5], w[6], w[7], w[8], w[63]);
  }

  /** What was packed can be read back. */
  lemma DataRoundTrip(d: PageTableData)
    requires Canonical(d.physicalAddress)
    ensures FlagsOf(FromData(d)) == d.flags && Address(FromData(d)) == d.physicalAddress
  {
    FlagsRead(d);
    AddressRead(d);
  }

  lemma FlagsRead(d: PageTableData)
    ensures FlagsOf(FromData(d)) == d.flags
  {
    FlagsWordBits(d.flags);
    assert forall i | 0 <= i < 9 || i == 63 :: FromData(d)[i] == FlagsWord(d.flags)[i];
  }

  lemma AddressRead(d: PageTableData)
    requires Canonical(d.physicalAddress)
    ensures Address(FromData(d)) == d.physicalAddress
  {
    FlagsWordBits(d.flags);
    AddressBits(FromData(d));
    forall i | 0 <= i < 64
      ensures Address(FromData(d))[i] == d.physicalAddress[i]
    {
      FromDataAt(d, if 12 <= i < 52 then i else 51);
    }
  }

  /** Unpacking and packing again clears the bits that belong to no field and keeps the rest. */
  lemma EntryRoundTrip(entry: Word)
    ensures FromData(PageTableData(FlagsOf(entry), Address(entry))) == And(entry, Or(AddressMask(), FlagsMask()))
  {
    var r, w := FromData(PageTableData(FlagsOf(entry), Address(entry))), And(entry, Or(AddressMask(), FlagsMask()));
    forall i | 0 <= i < 64
      ensures r[i] == w[i]
    {
      FromDataAt(PageTableData(FlagsOf(entry), Address(entry)), i);
      FieldsAt(entry, i);
      AddressBits(entry);
      FlagsWordAt(entry, i);
    }
  }

  lemma FromDataAt(d: PageTableData, i: nat)
    requires i < 64
    ensures FromData(d)[i] == (FlagsWord(d.flags)[i] || (12 <= i < 52 && d.physicalAddress[i]))
  {
  }

  lemma FieldsAt(entry: Word, i: nat)
    requires i < 64
    ensures And(entry, Or(AddressMask(), FlagsMask()))[i] == (entry[i] && (i < 9 || 12 <= i < 52 || i == 63))
  {
  }

  lemma FlagsWordAt(entry: Word, i: nat)
    requires i < 64
    ensures FlagsWord(FlagsOf(entry))[i] == (entry[i] && (i < 9 || i == 63))
  {
    FlagsWordBits(FlagsOf(entry));
    if i < 9 || i == 63 {
      FlagBit(entry, FlagsWord(FlagsOf(entry)), i);
    }
  }

  lemma FlagBit(a: Word, b: Word, i: nat)
    requires FlagsOf(a) == FlagsOf(b) && (i < 9 || i == 63)
    ensures a[i] == b[i]
  {
    assert a[0] == b[0] && a[1] == b[1] && a[2] == b[2] && a[3] == b[3] && a[4] == b[4];
    assert a[5] == b[5] && a[6] == b[6] && a[7] == b[7] && a[8] == b[8] && a[63] == b[63];
  }

  /** Every flag that is on in `wanted` is on in `flags`. */
  predicate Covers(flags: PageFlags, wanted: PageFlags) {
    && (wanted.present ==> flags.present) && (wanted.writable ==> flags.writable)
    && (wanted.userAccessable ==> flags.userAccessable)
    && (wanted.writeThroughCachingEnabled ==> flags.writeThroughCachingEnabled)
    && (wanted.cacheDisabled ==> flags.cacheDisabled) && (wanted.accessed ==> flags.accessed)
    && (wanted.dirty ==> flags.dirty) && (wanted.hugePage ==> flags.hugePage)
    && (wanted.global ==> flags.global) && (wanted.noExecute ==> flags.noExecute)
  }

  /** The mask test on words compares the ten flags and nothing else. */
  lemma MaskTest(entry: Word, wanted: Word)
    ensures And(entry, ReplaceAddrWith(wanted, ZERO)) == ReplaceAddrWith(wanted, ZERO)
      <==> Covers(FlagsOf(entry), FlagsOf(wanted))
  {
    var mask := ReplaceAddrWith(wanted, ZERO);
    var both := And(entry, mask);
    assert forall i | 0 <= i < 64 :: mask[i] == (wanted[i] && (i < 9 || i == 63));
    if Covers(FlagsOf(entry), FlagsOf(wanted)) {
      forall i | 0 <= i < 64
        ensures both[i] == mask[i]
      {
        if i < 9 || i == 63 {
          WantedBit(entry, wanted, i);
        }
      }
    }
    if both == mask {
      assert forall i | 0 <= i < 64 :: both[i] == (entry[i] && mask[i]);
      assert forall i | 0 <= i < 64 && (i < 9 || i == 63) :: wanted[i] ==> entry[i];
      assert wanted[0] ==> entry[0];
    }
  }

  lemma WantedBit(entry: Word, wanted: Word, i: nat)
    requires Covers(FlagsOf(entry), FlagsOf(wanted)) && (i < 9 || i == 63)
    ensures wanted[i] ==> entry[i]
  {
    assert i == 0 || i == 1 || i == 2 || i == 3 || i == 4 || i == 5 || i == 6 || i == 7 || i == 8 || i == 63;
  }

  // ----- the indices of a virtual address -----

  /** The table index at level `i`: masked, moved down, and taken modulo 512. */
  function LevelIndex(va: Word, i: nat): Word
    requires i < 4
  {
    var shift := (3 - i) * 9 + 12;
    And(ShiftRight(And(Ones(shift, shift + 9), va), shift), Ones(0, 9))
  }

  lemma LevelBits(va: Word, i: nat)
    requires i < 4
    ensures forall k | 0 <= k < 64 :: LevelIndex(va, i)[k] == (k < 9 && va[(3 - i) * 9 + 12 + if k < 9 then k else 0])
  {
  }

  /** Two addresses have the same four indices if and only if they agree in bits 47 to 12. */
  lemma SameIndices(va: Word, vb: Word)
    ensures (forall i | 0 <= i < 4 :: LevelIndex(va, i) == LevelIndex(vb, i)) <==> (forall k | 12 <= k < 48 :: va[k] == vb[k])
  {
    if forall k | 12 <= k < 48 :: va[k] == vb[k] {
      forall i | 0 <= i < 4
        ensures LevelIndex(va, i) == LevelIndex(vb, i)
      {
        LevelBits(va, i);
        LevelBits(vb, i);
        assert forall k | 0 <= k < 64 :: LevelIndex(va, i)[k] == LevelIndex(vb, i)[k];
      }
    }
    if forall i | 0 <= i < 4 :: LevelIndex(va, i) == LevelIndex(vb, i) {
      forall k | 12 <= k < 48
        ensures va[k] == vb[k]
      {
        var i, j := 3 - (k - 12) / 9, (k - 12) % 9;
        LevelBits(va, i);
        LevelBits(vb, i);
        assert LevelIndex(va, i)[j] == va[k] && LevelIndex(vb, i)[j] == vb[k];
      }
    }
  }
}
