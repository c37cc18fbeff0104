/**
 * The block list of the kernel heap: packed headers that lie in front of the space they describe.
 * This module holds the list as a sequence of areas; the heap itself follows the headers in memory.
 */
module HeapBlocks {
  import opened Arithmetic
  import opened Wrappers

  const HEADER: nat := 8

  /** What one header says. */
  datatype Block = Block(len: nat, used: bool, hasNext: bool)

  /** What a caller was given. */
  datatype Allocation = Allocation(ptr: nat, size: nat)

  /** A block at `addr` with `len` bytes behind its header, and the allocation that lies in it. */
  datatype Area = Area(addr: nat, len: nat, owner: Option<Allocation>) {
    function Inner(): nat {
      addr + HEADER
    }

    function End(): nat {
      addr + HEADER + len
    }
  }

  /** The least multiple of `align` that is not below `x`. */
  function NextMultiple(x: nat, align: nat): nat
    requires align > 0
  {
    if x % align == 0 then x else x + (align - x % align)
  }

  lemma NextMultipleIs(x: nat, align: nat)
    requires align > 0
    ensures NextMultiple(x, align) % align == 0 && x <= NextMultiple(x, align) < x + align
    ensures forall y | x <= y && y % align == 0 :: NextMultiple(x, align) <= y
  {
    var q, r := x / align, x % align;
    if r != 0 {
      assert x + (align - r) == (q + 1) * align;
      Quotient((q + 1) * align, align, q + 1);
      forall y | x <= y && y % align == 0
        ensures NextMultiple(x, align) <= y
      {
        NoneBetween(x, y, align);
      }
    }
  }

  lemma NoneBetween(x: nat, y: nat, align: nat)
    requires align > 0 && x <= y && y % align == 0 && x % align != 0
    ensures x + (align - x % align) <= y
  {
    var q, p := x / align, y / align;
    assert y == p * align && x == q * align + x % align;
    if p <= q {
      Grows(p, q, align);
    } else {
      Grows(q + 1, p, align);
    }
  }

  // ----- the list in memory -----

  function HeaderOf(a: Area, hasNext: bool): Block {
    Block(a.len, a.owner.Some?, hasNext)
  }

  /** Each header tells its block, and that another follows, except for the last. */
  ghost predicate Chain(mem: map<nat, Block>, s: seq<Area>) {
    forall i | 0 <= i < |s| :: s[i].addr in mem && mem[s[i].addr] == HeaderOf(s[i], i < |s| - 1)
  }

  ghost predicate Sound(a: Area) {
    && a.addr % HEADER == 0 && a.len > 0
    && (a.owner.Some? ==>
         && a.owner.value.size > 0 && a.Inner() <= a.owner.value.ptr
         && a.owner.value.ptr + a.owner.value.size <= a.End())
  }

  /** The blocks lie one behind the other, from `lo` to `hi`. */
  ghost predicate Tiles(s: seq<Area>, lo: nat, hi: nat) {
    if s == [] then lo == hi else s[0].addr == lo && Sound(s[0]) && Tiles(s[1..], s[0].End(), hi)
  }

  /** Where the blocks of `s` end when they begin at `lo`. */
  ghost function EndOf(s: seq<Area>, lo: nat): nat {
    if s == [] then lo else s[|s| - 1].End()
  }

  ghost predicate NoFreePair(s: seq<Area>) {
    |s| >= 2 ==> (s[0].owner.Some? || s[1].owner.Some?) && NoFreePair(s[1..])
  }

  lemma {:induction false} PairsJoin(x: seq<Area>, y: seq<Area>)
    ensures NoFreePair(x + y) <==>
      NoFreePair(x) && NoFreePair(y) && (x == [] || y == [] || x[|x| - 1].owner.Some? || y[0].owner.Some?)
  {
    if x == [] {
      assert x + y == y;
    } else if |x| == 1 {
      assert (x + y)[1..] == y;
    } else {
      PairsJoin(x[1..], y);
      assert (x + y)[1..] == x[1..] + y;
    }
  }

  lemma {:induction false} TilesJoin(x: seq<Area>, y: seq<Area>, lo: nat, mid: nat, hi: nat)
    requires Tiles(x, lo, mid) && Tiles(y, mid, hi)
    ensures Tiles(x + y, lo, hi)
  {
    if x == [] {
      assert x + y == y;
    } else {
      TilesJoin(x[1..], y, x[0].End(), mid, hi);
      assert (x + y)[1..] == x[1..] + y;
    }
  }

  lemma {:induction false} TilesCut(x: seq<Area>, y: seq<Area>, lo: nat, hi: nat)
    requires Tiles(x + y, lo, hi)
    ensures Tiles(x, lo, EndOf(x, lo)) && Tiles(y, EndOf(x, lo), hi)
  {
    if x == [] {
      assert x + y == y;
    } else {
      assert (x + y)[1..] == x[1..] + y;
      TilesCut(x[1..], y, x[0].End(), hi);
    }
  }

  lemma {:induction false} TilesBounds(s: seq<Area>, lo: nat, hi: nat)
    requires Tiles(s, lo, hi)
    ensures lo <= hi && forall a | a in s :: Sound(a) && lo <= a.addr && a.End() <= hi
  {
    if s != [] {
      TilesBounds(s[1..], s[0].End(), hi);
      assert forall a | a in s :: a == s[0] || a in s[1..];
    }
  }

  lemma TilesAround(x: seq<Area>, m: seq<Area>, y: seq<Area>, lo: nat, hi: nat)
    requires Tiles(x + m + y, lo, hi)
    ensures var p := EndOf(x, lo); var q := EndOf(m, p);
      lo <= p <= q <= hi && Tiles(x, lo, p) && Tiles(m, p, q) && Tiles(y, q, hi)
  {
    TilesCut(x + m, y, lo, hi);
    TilesCut(x, m, lo, EndOf(x + m, lo));
    var p := EndOf(x, lo);
    assert EndOf(x + m, lo) == EndOf(m, p);
    TilesBounds(x, lo, p);
    TilesBounds(m, p, EndOf(m, p));
    TilesBounds(y, EndOf(m, p), hi);
  }

  // ----- replacing a stretch of the list -----

  lemma ChainSplice(mem: map<nat, Block>, mem': map<nat, Block>, x: seq<Area>, m: seq<Area>, m': seq<Area>, y: seq<Area>)
    requires Chain(mem, x + m + y) && m != [] && m' != []
    requires forall a | a in x || a in y :: a.addr in mem' && (a.addr in mem ==> mem'[a.addr] == mem[a.addr])
    requires forall k | 0 <= k < |m'| :: m'[k].addr in mem' && mem'[m'[k].addr] == HeaderOf(m'[k], k < |m'| - 1 || y != [])
    ensures Chain(mem', x + m' + y)
  {
    var s, s' := x + m + y, x + m' + y;
    forall i | 0 <= i < |s'|
      ensures s'[i].addr in mem' && mem'[s'[i].addr] == HeaderOf(s'[i], i < |s'| - 1)
    {
      if i < |x| {
        assert s'[i] == x[i] == s[i] && x[i] in x;
      } else if i < |x| + |m'| {
        assert s'[i] == m'[i - |x|];
      } else {
        var j := i - |x| - |m'|;
        assert s'[i] == y[j] == s[|x| + |m| + j] && y[j] in y;
      }
    }
  }

  lemma TilesSplice(x: seq<Area>, m: seq<Area>, m': seq<Area>, y: seq<Area>, lo: nat, hi: nat)
    requires Tiles(x + m + y, lo, hi) && Tiles(m', EndOf(x, lo), EndOf(m, EndOf(x, lo)))
    ensures Tiles(x + m' + y, lo, hi)
  {
    TilesAround(x, m, y, lo, hi);
    var p := EndOf(x, lo);
    TilesJoin(x, m', lo, p, EndOf(m, p));
    TilesJoin(x + m', y, lo, EndOf(m, p), hi);
  }

  // ----- allocating -----

  /** The block is free and holds `size` bytes behind the first aligned address. */
  ghost predicate Fits(a: Area, size: nat, align: nat)
    requires align > 0
  {
    a.owner.None? && NextMultiple(a.Inner(), align) + size <= a.End()
  }

  /** That is so if and only if there is an aligned place for the bytes in the free block. */
  lemma FitsIff(a: Area, size: nat, align: nat)
    requires align > 0
    ensures Fits(a, size, align)
      <==> a.owner.None? && exists ptr: nat :: a.Inner() <= ptr && ptr + size <= a.End() && ptr % align == 0
  {
    NextMultipleIs(a.Inner(), align);
  }

  /** One past the highest address. */
  const ADDRESSES: nat := 0x1_0000_0000_0000_0000

  /** Sums of addresses keep their lower 64 bits. */
  function Wrap(x: nat): nat {
    x % ADDRESSES
  }

  /** The last byte of a request as the machine computes it. */
  function WordEnd(inner: nat, size: nat, align: nat): nat
    requires size > 0 && align > 0
  {
    Wrap(Wrap(NextMultiple(inner, align)) + (size - 1))
  }

  /** The test that the allocator makes of a block. */
  ghost predicate FitsWord(a: Area, size: nat, align: nat)
    requires size > 0 && align > 0
  {
    a.owner.None? && WordEnd(a.Inner(), size, align) < a.End()
  }

  /** The request runs past the highest address when it is placed in the block. */
  ghost predicate Passes(a: Area, size: nat, align: nat)
    requires align > 0
  {
    NextMultiple(a.Inner(), align) + size > ADDRESSES
  }

  /**
   * The test is right for a request that does not pass the highest address. Of a free block in which
   * the aligned start lies, it is right for no other request.
   */
  lemma WordFitIff(a: Area, size: nat, align: nat)
    requires size > 0 && align > 0 && a.End() <= ADDRESSES
    ensures Fits(a, size, align) ==> FitsWord(a, size, align) && !Passes(a, size, align)
    ensures FitsWord(a, size, align) && !Passes(a, size, align) ==> Fits(a, size, align)
    ensures a.owner.None? && NextMultiple(a.Inner(), align) <= a.End() && size <= ADDRESSES ==>
      ((FitsWord(a, size, align) <==> Fits(a, size, align)) <==> !Passes(a, size, align))
  {
    var start := NextMultiple(a.Inner(), align);
    if start < ADDRESSES {
      assert Wrap(start) == start;
      if start + size <= ADDRESSES {
        assert Wrap(start + (size - 1)) == start + (size - 1);
      } else if size <= ADDRESSES {
        assert Wrap(start + (size - 1)) == start + (size - 1) - ADDRESSES;
      }
    } else if start == ADDRESSES && size <= ADDRESSES {
      assert Wrap(start) == 0 && Wrap(0 + (size - 1)) == size - 1;
    }
  }

  /** Where the header behind a request that ends at `end` would lie, as the machine computes it. */
  function WordNext(end: nat): nat {
    Wrap(NextMultiple(Wrap(end), HEADER))
  }

  /** The test that the allocator makes before it splits a block. */
  ghost predicate SplitsWord(end: nat, maxAddr: nat) {
    Wrap(WordNext(end) + HEADER) < maxAddr
  }

  /** The request leaves no room below the highest address for the header that would follow it. */
  ghost predicate Overruns(a: Area, size: nat, align: nat)
    requires align > 0
  {
    NextMultiple(a.Inner(), align) + size > ADDRESSES - 2 * HEADER
  }

  /** For a request that fits, the test before a split is right if and only if that room is there. */
  lemma WordSplitIff(a: Area, size: nat, align: nat)
    requires size > 0 && align > 0 && a.End() <= ADDRESSES && Fits(a, size, align)
    ensures (SplitsWord(NextMultiple(a.Inner(), align) + size, a.End() - 1) <==> |Cut(a, size, align)| == 2)
      <==> !Overruns(a, size, align)
  {
    RoomBehind(NextMultiple(a.Inner(), align) + size);
  }

  lemma RoomBehind(end: nat)
    requires end <= ADDRESSES
    ensures end <= ADDRESSES - 2 * HEADER ==>
      WordNext(end) == NextMultiple(end, HEADER) && Wrap(WordNext(end) + HEADER) == NextMultiple(end, HEADER) + HEADER
    ensures end > ADDRESSES - 2 * HEADER ==>
      Wrap(WordNext(end) + HEADER) <= HEADER && NextMultiple(end, HEADER) + HEADER >= ADDRESSES
  {
    NextMultipleIs(end, HEADER);
    if end > ADDRESSES - 2 * HEADER {
      assert NextMultiple(end, HEADER) == if end <= ADDRESSES - HEADER then ADDRESSES - HEADER else ADDRESSES;
    } else {
      assert NextMultiple(end, HEADER) <= ADDRESSES - 2 * HEADER;
    }
  }

  /** A region that ends at the highest address, and a request for all of it: a header at address 0 is due. */
  lemma WrappedSplit()
    ensures var lo, hi := ADDRESSES - 0x1000, ADDRESSES;
      var a := Area(lo, hi - lo - HEADER, None);
      && Tiles([a], lo, hi) && Fits(a, 0xff8, 8) && !Passes(a, 0xff8, 8) && |Cut(a, 0xff8, 8)| == 1
      && WordNext(NextMultiple(a.Inner(), 8) + 0xff8) == 0 && SplitsWord(NextMultiple(a.Inner(), 8) + 0xff8, a.End() - 1)
  {
    var lo, hi := ADDRESSES - 0x1000, ADDRESSES;
    var a := Area(lo, hi - lo - HEADER, None);
    assert [a][1..] == [];
    assert NextMultiple(a.Inner(), 8) == a.Inner();
  }

  /** A request whose size and alignment fit above the region passes the highest address in no block. */
  lemma SmallRequest(s: seq<Area>, lo: nat, hi: nat, i: nat, size: nat, align: nat)
    requires Tiles(s, lo, hi) && i < |s| && align > 0 && hi + size + align <= ADDRESSES
    ensures !Passes(s[i], size, align)
  {
    TilesBounds(s, lo, hi);
    assert s[i] in s;
    NextMultipleIs(s[i].Inner(), align);
  }

  /** The kernel's heap region, new, and a request for 3.25 GiB: its last byte is computed to be 7. */
  lemma WrappedRequest()
    ensures var lo, hi := 0xffff_ffff_3000_0000, 0xffff_ffff_5000_0000;
      var a := Area(lo, hi - lo - HEADER, None);
      && Tiles([a], lo, hi) && WordEnd(a.Inner(), 0xD000_0000, 8) == 7
      && FitsWord(a, 0xD000_0000, 8) && !Fits(a, 0xD000_0000, 8)
  {
    var lo, hi := 0xffff_ffff_3000_0000, 0xffff_ffff_5000_0000;
    var a := Area(lo, hi - lo - HEADER, None);
    assert [a][1..] == [];
    assert NextMultiple(a.Inner(), 8) == a.Inner();
  }

  /** The block of a new allocation, and what is left of the old block if that is worth a header. */
  ghost function Cut(a: Area, size: nat, align: nat): (r: seq<Area>)
    requires align > 0
    ensures 1 <= |r| <= 2
  {
    var ptr := NextMultiple(a.Inner(), align);
    var next := NextMultiple(ptr + size, HEADER);
    if next + HEADER + 1 < a.End() then
      [Area(a.addr, if next >= a.Inner() then next - a.Inner() else 0, Some(Allocation(ptr, size))),
       Area(next, a.End() - (next + HEADER), None)]
    else
      [Area(a.addr, a.len, Some(Allocation(ptr, size)))]
  }

  lemma CutTiles(a: Area, size: nat, align: nat)
    requires Sound(a) && align > 0 && size > 0 && Fits(a, size, align)
    ensures Tiles(Cut(a, size, align), a.addr, a.End())
    ensures Cut(a, size, align)[0].owner == Some(Allocation(NextMultiple(a.Inner(), align), size))
    ensures forall k | 1 <= k < |Cut(a, size, align)| :: Cut(a, size, align)[k].owner.None?
  {
    var c := Cut(a, size, align);
    NextMultipleIs(a.Inner(), align);
    NextMultipleIs(NextMultiple(a.Inner(), align) + size, HEADER);
    if |c| == 2 {
      assert c[1..] == [c[1]] && Tiles([c[1]], c[0].End(), a.End());
    }
  }

  lemma AllocTiles(x: seq<Area>, a: Area, y: seq<Area>, size: nat, align: nat, lo: nat, hi: nat)
    requires Tiles(x + [a] + y, lo, hi) && align > 0 && size > 0 && Fits(a, size, align)
    ensures Tiles(x + Cut(a, size, align) + y, lo, hi)
  {
    TilesAround(x, [a], y, lo, hi);
    assert Sound(a);
    CutTiles(a, size, align);
    TilesSplice(x, [a], Cut(a, size, align), y, lo, hi);
  }

  lemma AllocPairs(x: seq<Area>, a: Area, y: seq<Area>, size: nat, align: nat)
    requires NoFreePair(x + [a] + y) && a.owner.None? && align > 0
    ensures NoFreePair(x + Cut(a, size, align) + y)
  {
    var c := Cut(a, size, align);
    PairsJoin(x + [a], y);
    PairsJoin(x, [a]);
    PairsJoin(x, c);
    PairsJoin(x + c, y);
    if y != [] {
      assert (x + [a])[|x|] == a;
    }
  }

  // ----- freeing -----

  /** The freed block, joined with the block behind it if that is free. */
  ghost function JoinedForward(a: Area, y: seq<Area>): Area {
    Area(a.addr, if y != [] && y[0].owner.None? then a.len + HEADER + y[0].len else a.len, None)
  }

  ghost function RestForward(y: seq<Area>): seq<Area> {
    if y != [] && y[0].owner.None? then y[1..] else y
  }

  /** The list after block `a` is freed between `x` and `y`. */
  ghost function Freed(x: seq<Area>, a: Area, y: seq<Area>): seq<Area> {
    var m := JoinedForward(a, y);
    if x != [] && x[|x| - 1].owner.None? then
      x[..|x| - 1] + [Area(x[|x| - 1].addr, x[|x| - 1].len + HEADER + m.len, None)] + RestForward(y)
    else
      x + [m] + RestForward(y)
  }

  lemma FreedTiles(x: seq<Area>, a: Area, y: seq<Area>, lo: nat, hi: nat)
    requires Tiles(x + [a] + y, lo, hi)
    ensures Tiles(Freed(x, a, y), lo, hi)
  {
    var m := JoinedForward(a, y);
    TilesAround(x, [a], y, lo, hi);
    assert Sound(a) && a.addr == EndOf(x, lo);
    assert Tiles([m] + RestForward(y), a.addr, hi) by {
      assert ([m] + RestForward(y))[1..] == RestForward(y);
    }
    if x != [] && x[|x| - 1].owner.None? {
      var z, b := x[..|x| - 1], x[|x| - 1];
      var b' := Area(b.addr, b.len + HEADER + m.len, None);
      assert x == z + [b];
      TilesCut(z, [b], lo, a.addr);
      assert Sound(b) && b.End() == a.addr;
      assert Tiles([b'] + RestForward(y), b.addr, hi) by {
        assert ([b'] + RestForward(y))[1..] == RestForward(y) == ([m] + RestForward(y))[1..];
      }
      TilesJoin(z, [b'] + RestForward(y), lo, b.addr, hi);
      assert z + ([b'] + RestForward(y)) == Freed(x, a, y);
    } else {
      TilesJoin(x, [m] + RestForward(y), lo, a.addr, hi);
      assert x + ([m] + RestForward(y)) == Freed(x, a, y);
    }
  }

  lemma FreedPairs(x: seq<Area>, a: Area, y: seq<Area>)
    requires NoFreePair(x + [a] + y)
    ensures NoFreePair(Freed(x, a, y))
  {
    var m, rest := JoinedForward(a, y), RestForward(y);
    PairsJoin(x + [a], y);
    PairsJoin(x, [a]);
    if x != [] && x[|x| - 1].owner.None? {
      var z, b := x[..|x| - 1], x[|x| - 1];
      var b' := Area(b.addr, b.len + HEADER + m.len, None);
      assert x == z + [b];
      PairsJoin(z, [b]);
      PairsJoin(z, [b']);
      PairsJoin(z + [b'], rest);
      assert (z + [b'])[|z|] == b';
    } else {
      PairsJoin(x, [m]);
      PairsJoin(x + [m], rest);
      assert (x + [m])[|x|] == m;
    }
  }

  /** Freeing a block that was just allocated puts the list back as it was. */
  lemma FreeAfterAlloc(x: seq<Area>, a: Area, y: seq<Area>, size: nat, align: nat, lo: nat, hi: nat)
    requires Tiles(x + [a] + y, lo, hi) && NoFreePair(x + [a] + y)
    requires align > 0 && size > 0 && Fits(a, size, align)
    ensures var c := Cut(a, size, align);
      c[0].owner == Some(Allocation(NextMultiple(a.Inner(), align), size)) && Freed(x, c[0], c[1..] + y) == x + [a] + y
  {
    var c := Cut(a, size, align);
    TilesAround(x, [a], y, lo, hi);
    assert Sound(a);
    CutTiles(a, size, align);
    PairsJoin(x + [a], y);
    PairsJoin(x, [a]);
    assert (x + [a])[|x|] == a;
    if |c| == 2 {
      assert c[1..] + y == [c[1]] + y;
      assert RestForward([c[1]] + y) == y;
      assert JoinedForward(c[0], [c[1]] + y) == a;
    } else {
      assert c[1..] + y == y;
      assert RestForward(y) == y;
      assert JoinedForward(c[0], y) == a;
    }
  }

  /** When everything is free there is one block, and it covers the whole region. */
  lemma AllFree(s: seq<Area>, lo: nat, hi: nat)
    requires Tiles(s, lo, hi) && NoFreePair(s) && s != [] && forall i | 0 <= i < |s| :: s[i].owner.None?
    ensures hi >= lo + HEADER && s == [Area(lo, hi - lo - HEADER, None)]
  {
    assert |s| == 1;
    assert s[1..] == [];
  }

  // ----- live allocations -----

  ghost function Live(s: seq<Area>): set<Allocation> {
    set a | a in s && a.owner.Some? :: a.owner.value
  }

  lemma LiveOf(s: seq<Area>, i: nat)
    requires i < |s| && s[i].owner.Some?
    ensures s[i].owner.value in Live(s)
  {
    assert s[i] in s;
  }

  lemma NothingLive(s: seq<Area>)
    requires forall p :: p !in Live(s)
    ensures forall i | 0 <= i < |s| :: s[i].owner.None?
  {
    forall i | 0 <= i < |s|
      ensures s[i].owner.None?
    {
      if s[i].owner.Some? {
        LiveOf(s, i);
      }
    }
  }

  /** Two live allocations share no byte. */
  lemma LiveApart(s: seq<Area>, lo: nat, hi: nat, p: Allocation, q: Allocation)
    requires Tiles(s, lo, hi) && p in Live(s) && q in Live(s) && p != q
    ensures p.ptr + p.size <= q.ptr || q.ptr + q.size <= p.ptr
    decreases |s|
  {
    TilesBounds(s, lo, hi);
    TilesBounds(s[1..], s[0].End(), hi);
    var a :| a in s && a.owner == Some(p);
    var b :| b in s && b.owner == Some(q);
    assert forall c | c in s :: c == s[0] || c in s[1..];
    if a in s[1..] && b in s[1..] {
      assert p in Live(s[1..]) && q in Live(s[1..]);
      LiveApart(s[1..], s[0].End(), hi, p, q);
    }
  }

  lemma LiveInside(s: seq<Area>, lo: nat, hi: nat, p: Allocation)
    requires Tiles(s, lo, hi) && p in Live(s)
    ensures p.size > 0 && lo + HEADER <= p.ptr && p.ptr + p.size <= hi
  {
    TilesBounds(s, lo, hi);
    var a :| a in s && a.owner == Some(p);
  }

  lemma LiveJoin(x: seq<Area>, y: seq<Area>)
    ensures Live(x + y) == Live(x) + Live(y)
  {
    forall p | p in Live(x) + Live(y)
      ensures p in Live(x + y)
    {
      if p in Live(x) {
        var a :| a in x && a.owner == Some(p);
        assert a in x + y;
      } else {
        var a :| a in y && a.owner == Some(p);
        assert a in x + y;
      }
    }
  }

  lemma LiveOne(a: Area)
    ensures Live([a]) == if a.owner.Some? then {a.owner.value} else {}
  {
    assert a in [a];
  }

  lemma AllocLive(x: seq<Area>, a: Area, y: seq<Area>, size: nat, align: nat)
    requires a.owner.None? && align > 0
    ensures Live(x + Cut(a, size, align) + y) == Live(x + [a] + y) + {Allocation(NextMultiple(a.Inner(), align), size)}
  {
    var c := Cut(a, size, align);
    LiveJoin(x + [a], y);
    LiveJoin(x, [a]);
    LiveJoin(x + c, y);
    LiveJoin(x, c);
    LiveOne(a);
    LiveOne(c[0]);
    if |c| == 2 {
      assert c == [c[0]] + [c[1]];
      LiveJoin([c[0]], [c[1]]);
      LiveOne(c[1]);
    } else {
      assert c == [c[0]];
    }
  }

  lemma FreedLive(x: seq<Area>, a: Area, y: seq<Area>, lo: nat, hi: nat)
    requires Tiles(x + [a] + y, lo, hi) && a.owner.Some?
    ensures Live(Freed(x, a, y)) == Live(x + [a] + y) - {a.owner.value}
  {
    var m, rest := JoinedForward(a, y), RestForward(y);
    LiveJoin(x + [a], y);
    LiveJoin(x, [a]);
    LiveOne(a);
    OnlyHere(x, a, y, lo, hi);
    assert Live(rest) == Live(y) by {
      if rest != y {
        assert y == [y[0]] + rest;
        LiveJoin([y[0]], rest);
        LiveOne(y[0]);
      }
    }
    if x != [] && x[|x| - 1].owner.None? {
      var z, b := x[..|x| - 1], x[|x| - 1];
      var b' := Area(b.addr, b.len + HEADER + m.len, None);
      assert x == z + [b];
      LiveJoin(z, [b]);
      LiveOne(b);
      LiveJoin(z, [b']);
      LiveOne(b');
      LiveJoin(z + [b'], rest);
    } else {
      LiveJoin(x, [m]);
      LiveOne(m);
      LiveJoin(x + [m], rest);
    }
  }

  lemma OnlyHere(x: seq<Area>, a: Area, y: seq<Area>, lo: nat, hi: nat)
    requires Tiles(x + [a] + y, lo, hi) && a.owner.Some?
    ensures a.owner.value !in Live(x) && a.owner.value !in Live(y)
  {
    TilesAround(x, [a], y, lo, hi);
    TilesBounds([a], EndOf(x, lo), a.End());
    assert a in [a];
    if a.owner.value in Live(x) {
      LiveInside(x, lo, EndOf(x, lo), a.owner.value);
    }
    if a.owner.value in Live(y) {
      LiveInside(y, a.End(), hi, a.owner.value);
    }
  }

  // ----- used blocks -----

  ghost function UsedBlocks(s: seq<Area>): set<Area> {
    set a | a in s && a.owner.Some?
  }

  lemma UsedParts(x: seq<Area>, m: seq<Area>, y: seq<Area>)
    ensures UsedBlocks(x + m + y) == UsedBlocks(x) + UsedBlocks(m) + UsedBlocks(y)
  {
    assert forall a :: a in x + m + y <==> a in x || a in m || a in y;
  }

  /** The block lies inside one free block of the list. */
  ghost predicate InFree(a: Area, s: seq<Area>) {
    exists b :: b in s && b.owner.None? && b.addr <= a.addr && a.End() <= b.End()
  }

  /** What an allocation in block `a` keeps. */
  lemma AllocKeeps(x: seq<Area>, a: Area, y: seq<Area>, size: nat, align: nat, lo: nat, hi: nat)
    requires Tiles(x + [a] + y, lo, hi) && NoFreePair(x + [a] + y) && align > 0 && size > 0 && Fits(a, size, align)
    ensures var p := Allocation(NextMultiple(a.Inner(), align), size); var s, s' := x + [a] + y, x + Cut(a, size, align) + y;
      && Tiles(s', lo, hi) && NoFreePair(s') && Live(s') == Live(s) + {p}
      && UsedBlocks(s') == UsedBlocks(s) + {s'[|x|]} && CutFrom(a, s'[|x|], p)
  {
    AllocTiles(x, a, y, size, align, lo, hi);
    AllocPairs(x, a, y, size, align);
    AllocLive(x, a, y, size, align);
    AllocUsed(x, a, y, size, align);
    assert (x + Cut(a, size, align) + y)[|x|] == Cut(a, size, align)[0];
  }

  /** The block that was cut from `a` ends at the next multiple of 8 if more than 9 bytes are left behind that. */
  ghost predicate CutFrom(a: Area, b: Area, p: Allocation) {
    var end := (p.ptr + p.size + 7) / 8 * 8;
    b.addr == a.addr && b.owner == Some(p) && b.End() == if end + 9 < a.End() then end else a.End()
  }

  lemma AllocUsed(x: seq<Area>, a: Area, y: seq<Area>, size: nat, align: nat)
    requires size > 0 && align > 0 && Fits(a, size, align)
    ensures var c := Cut(a, size, align);
      && UsedBlocks(x + c + y) == UsedBlocks(x + [a] + y) + {c[0]}
      && CutFrom(a, c[0], Allocation(NextMultiple(a.Inner(), align), size))
  {
    var c := Cut(a, size, align);
    UsedParts(x, c, y);
    UsedParts(x, [a], y);
    NextMultipleIs(a.Inner(), align);
    NextMultipleIs(NextMultiple(a.Inner(), align) + size, HEADER);
    assert c[0] in c && forall k | 1 <= k < |c| :: c[k].owner.None?;
    assert UsedBlocks(c) == {c[0]} && UsedBlocks([a]) == {};
  }

  /** No other used block changes. */
  lemma FreedUsed(x: seq<Area>, a: Area, y: seq<Area>, lo: nat, hi: nat)
    requires Tiles(x + [a] + y, lo, hi) && a.owner.Some?
    ensures UsedBlocks(Freed(x, a, y)) == UsedBlocks(x + [a] + y) - {a}
  {
    var m, rest := JoinedForward(a, y), RestForward(y);
    UsedParts(x, [a], y);
    TilesAround(x, [a], y, lo, hi);
    TilesBounds(x, lo, EndOf(x, lo));
    TilesBounds(y, a.End(), hi);
    assert a !in UsedBlocks(x) && a !in UsedBlocks(y) && UsedBlocks([a]) == {a};
    assert UsedBlocks(rest) == UsedBlocks(y) by {
      assert forall b | b in y && b.owner.Some? :: b in rest;
    }
    if x != [] && x[|x| - 1].owner.None? {
      var z, b := x[..|x| - 1], x[|x| - 1];
      assert forall c | c in x && c.owner.Some? :: c in z;
      UsedParts(z, [Area(b.addr, b.len + HEADER + m.len, None)], rest);
    } else {
      UsedParts(x, [m], rest);
    }
  }

  /** What is freed or was free lies inside a free block. */
  lemma FreedFree(x: seq<Area>, a: Area, y: seq<Area>, lo: nat, hi: nat, b: Area)
    requires Tiles(x + [a] + y, lo, hi) && b in x + [a] + y && (b.owner.None? || b == a)
    ensures InFree(b, Freed(x, a, y))
  {
    var m, s := JoinedForward(a, y), Freed(x, a, y);
    TilesAround(x, [a], y, lo, hi);
    assert Sound(a) && (y != [] ==> y[0].addr == a.End());
    if x != [] && x[|x| - 1].owner.None? {
      var z, c := x[..|x| - 1], x[|x| - 1];
      assert x == z + [c] && c.End() == a.addr;
      var joined := Area(c.addr, c.len + HEADER + m.len, None);
      assert s[|z|] == joined && joined in s;
      assert b == c || b == a || (y != [] && b == y[0]) || b in s;
    } else {
      assert s[|x|] == m && m in s;
      assert b == a || (y != [] && b == y[0]) || b in s;
    }
  }

  /** A list without free neighbours is determined by its used blocks. */
  lemma {:induction false} UsedDetermine(s: seq<Area>, t: seq<Area>, lo: nat, hi: nat)
    requires Tiles(s, lo, hi) && Tiles(t, lo, hi) && NoFreePair(s) && NoFreePair(t) && UsedBlocks(s) == UsedBlocks(t)
    ensures s == t
    decreases |s|
  {
    NoneInNothing(s, lo, hi);
    NoneInNothing(t, lo, hi);
    if s != [] {
      HeadReaches(s, t, lo, hi);
      HeadReaches(t, s, lo, hi);
      UsedTail(s, lo, hi);
      UsedTail(t, lo, hi);
      UsedDetermine(s[1..], t[1..], s[0].End(), hi);
    }
  }

  lemma NoneInNothing(s: seq<Area>, lo: nat, hi: nat)
    requires Tiles(s, lo, hi)
    ensures s == [] <==> lo == hi
  {
    TilesBounds(s, lo, hi);
    assert s != [] ==> s[0] in s;
  }

  lemma SecondBlock(s: seq<Area>, lo: nat, hi: nat)
    requires Tiles(s, lo, hi) && NoFreePair(s) && s != [] && s[0].owner.None? && s[0].End() < hi
    ensures |s| > 1 && s[1].addr == s[0].End() && s[1] in UsedBlocks(s)
  {
    assert |s| > 1 && s[1] == s[1..][0];
  }

  lemma HeadReaches(s: seq<Area>, t: seq<Area>, lo: nat, hi: nat)
    requires Tiles(s, lo, hi) && Tiles(t, lo, hi) && NoFreePair(s) && UsedBlocks(s) == UsedBlocks(t) && s != [] && t != []
    ensures s[0].owner.Some? ==> t[0] == s[0]
    ensures s[0].owner.None? && t[0].owner.None? ==> s[0].End() >= t[0].End()
  {
    TilesBounds(t[1..], t[0].End(), hi);
    assert forall a | a in t :: a == t[0] || a in t[1..];
    if s[0].owner.Some? {
      assert s[0] in UsedBlocks(s);
    } else if t[0].owner.None? && s[0].End() < t[0].End() {
      SecondBlock(s, lo, hi);
      assert false;
    }
  }

  lemma UsedTail(s: seq<Area>, lo: nat, hi: nat)
    requires Tiles(s, lo, hi) && s != []
    ensures UsedBlocks(s[1..]) == UsedBlocks(s) - {s[0]}
  {
    TilesBounds(s[1..], s[0].End(), hi);
    assert forall a | a in s :: a == s[0] || a in s[1..];
  }
}
