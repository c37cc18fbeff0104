/** The kernel heap: first fit over headers in memory, with splitting and joining of blocks. */
module KernelHeap {
  import opened Wrappers
  import opened HeapBlocks
  import opened HeapHeader

  ghost predicate FirstFit(s: seq<Area>, i: nat, size: nat, align: nat)
    requires align > 0
  {
    i < |s| && Fits(s[i], size, align) && forall k | 0 <= k < i :: !Fits(s[k], size, align)
  }

  /** The first block that passes the allocator's own test. */
  ghost predicate FirstWordFit(s: seq<Area>, i: nat, size: nat, align: nat)
    requires size > 0 && align > 0
  {
    i < |s| && FitsWord(s[i], size, align) && forall k | 0 <= k < i :: !FitsWord(s[k], size, align)
  }

  lemma FirstFits(s: seq<Area>, lo: nat, hi: nat, i: nat, size: nat, align: nat)
    requires Tiles(s, lo, hi) && hi <= ADDRESSES && size > 0 && align > 0 && FirstWordFit(s, i, size, align)
    ensures FirstFit(s, i, size, align) <==> !Passes(s[i], size, align)
    ensures hi + size + align <= ADDRESSES ==> !Passes(s[i], size, align)
    ensures hi + 2 * HEADER <= ADDRESSES ==> (Overruns(s[i], size, align) <==> Passes(s[i], size, align))
  {
    TilesBounds(s, lo, hi);
    forall k | 0 <= k <= i
      ensures Fits(s[k], size, align) <==> FitsWord(s[k], size, align) && !Passes(s[k], size, align)
    {
      assert s[k] in s;
      WordFitIff(s[k], size, align);
    }
    if hi + size + align <= ADDRESSES {
      SmallRequest(s, lo, hi, i, size, align);
    }
  }

  lemma NoneFits(s: seq<Area>, lo: nat, hi: nat, size: nat, align: nat)
    requires Tiles(s, lo, hi) && hi <= ADDRESSES && size > 0 && align > 0
    requires forall k | 0 <= k < |s| :: !FitsWord(s[k], size, align)
    ensures forall a | a in s :: !Fits(a, size, align)
  {
    TilesBounds(s, lo, hi);
    forall a | a in s
      ensures !Fits(a, size, align)
    {
      WordFitIff(a, size, align);
    }
  }

  lemma SplitAt(s: seq<Area>, i: nat)
    requires i < |s|
    ensures s == s[..i] + [s[i]] + s[i + 1..]
  {
  }

  lemma InFront(s: seq<Area>, k: nat, i: nat)
    requires k < i <= |s|
    ensures s[k] in s[..i]
  {
    assert s[..i][k] == s[k];
  }

  lemma Behind(s: seq<Area>, i: nat, k: nat)
    requires i < k < |s|
    ensures s[k] in s[i + 1..]
  {
    assert s[i + 1..][k - i - 1] == s[k];
  }

  /** A block and its neighbours in a tiled list. */
  lemma BlockAt(s: seq<Area>, lo: nat, hi: nat, i: nat)
    requires Tiles(s, lo, hi) && i < |s|
    ensures Sound(s[i]) && (i + 1 < |s| ==> s[i + 1].addr == s[i].End())
    ensures forall a | a in s[..i] :: a.addr < s[i].addr && a.End() <= s[i].addr
    ensures forall a | a in s[i + 1..] :: s[i].End() <= a.addr
  {
    SplitAt(s, i);
    TilesAround(s[..i], [s[i]], s[i + 1..], lo, hi);
    TilesBounds(s[..i], lo, EndOf(s[..i], lo));
    TilesBounds(s[i + 1..], s[i].End(), hi);
    if i + 1 < |s| {
      assert s[i + 1..][0] == s[i + 1];
    }
  }

  /** The block that holds the bytes of an allocation is the block of the allocation. */
  lemma HoldsIt(s: seq<Area>, lo: nat, hi: nat, i: nat, p: Allocation)
    requires Tiles(s, lo, hi) && i < |s| && p in Live(s) && s[i].Inner() <= p.ptr < s[i].End()
    ensures s[i].owner == Some(p)
  {
    var a :| a in s && a.owner == Some(p);
    BlockAt(s, lo, hi, i);
    var k: nat :| 0 <= k < |s| && s[k] == a;
    BlockAt(s, lo, hi, k);
    if k < i {
      InFront(s, k, i);
    } else if k > i {
      Behind(s, i, k);
    }
  }

  lemma SpliceParts(x: seq<Area>, c: seq<Area>, y: seq<Area>)
    requires c != []
    ensures var s := x + c + y; s[|x|] == c[0] && s[..|x|] == x && s[|x| + 1..] == c[1..] + y
  {
    var s := x + c + y;
    assert s == x + ([c[0]] + (c[1..] + y)) by {
      assert c == [c[0]] + c[1..];
    }
  }

  lemma OwnerOnce(s: seq<Area>, lo: nat, hi: nat, i: nat, k: nat, p: Allocation)
    requires Tiles(s, lo, hi) && i < |s| && k < |s| && s[i].owner == s[k].owner == Some(p)
    ensures i == k
  {
    BlockAt(s, lo, hi, i);
    BlockAt(s, lo, hi, k);
    if k < i {
      InFront(s, k, i);
    } else if k > i {
      Behind(s, i, k);
    }
  }

  lemma OnlyOwner(s: seq<Area>, lo: nat, hi: nat, i: nat, p: Allocation)
    requires Tiles(s, lo, hi) && i < |s| && s[i].owner == Some(p)
    ensures forall a | a in s && a.owner == Some(p) :: a == s[i]
  {
    forall a | a in s && a.owner == Some(p)
      ensures a == s[i]
    {
      var k: nat :| k < |s| && s[k] == a;
      OwnerOnce(s, lo, hi, i, k, p);
    }
  }

  /** What a request comes to. `Wrapped`: a sum passes the highest address, and what is taken or cut is wrong. */
  datatype Outcome = Given(ptr: nat) | Null | Wrapped

  class KernelHeapAllocator {
    var listHead: Option<nat>
    var mem: map<nat, Block>
    ghost var blocks: seq<Area>
    ghost var lo: nat
    ghost var hi: nat

    ghost predicate Valid()
      reads this
    {
      && listHead == (if blocks == [] then None else Some(blocks[0].addr))
      && Tiles(blocks, lo, hi) && NoFreePair(blocks) && Chain(mem, blocks)
      && hi <= ADDRESSES && hi - lo <= LENGTHS
    }

    constructor ()
      ensures Valid() && blocks == []
    {
      listHead, mem, blocks, lo, hi := None, map[], [], 0, 0;
    }

    /** One free block from the first aligned address to the end of the region. */
    method InitHeap(start: nat, length: nat)
      requires NextMultiple(start, HEADER) + HEADER < start + length <= ADDRESSES && length <= LENGTHS
      modifies this
      ensures Valid() && lo == NextMultiple(start, HEADER) && hi == start + length
      ensures blocks == [Area(lo, hi - lo - HEADER, None)]
    {
      var newBlock := NextMultiple(start, HEADER);
      NextMultipleIs(start, HEADER);
      mem := mem[newBlock := Block(start + length - newBlock - HEADER, false, false)];
      listHead := Some(newBlock);
      lo, hi := newBlock, start + length;
      blocks := [Area(lo, hi - lo - HEADER, None)];
    }

    method GetNext(block: nat, ghost i: nat) returns (next: Option<nat>)
      requires Valid() && i < |blocks| && block == blocks[i].addr
      ensures next == if i + 1 < |blocks| then Some(blocks[i + 1].addr) else None
    {
      BlockAt(blocks, lo, hi, i);
      if !mem[block].hasNext {
        return None;
      }
      return Some(block + HEADER + mem[block].len);
    }

    /**
     * First fit by the allocator's own test; null exactly when no block passes it. The block it takes is
     * the first that fits exactly if the request does not pass the highest address there, and it is cut
     * rightly exactly if there is room below that address for a header behind the request. Both hold if size
     * and alignment fit above the region and the region ends two headers below the highest address. A
     * request for which they do not hold is not followed further.
     */
    method Alloc(size: nat, align: nat) returns (r: Outcome, ghost i: nat)
      requires Valid() && size > 0 && align > 0
      modifies this
      ensures r.Null? <==> forall a | a in old(blocks) :: !FitsWord(a, size, align)
      ensures r.Null? ==> forall a | a in old(blocks) :: !Fits(a, size, align)
      ensures !r.Null? ==> FirstWordFit(old(blocks), i, size, align)
      ensures !r.Null? ==> (FirstFit(old(blocks), i, size, align) <==> !Passes(old(blocks)[i], size, align))
      ensures !r.Null? ==> (r.Wrapped? <==> Overruns(old(blocks)[i], size, align))
      ensures !r.Null? && old(hi) + 2 * HEADER <= ADDRESSES ==> (r.Given? <==> FirstFit(old(blocks), i, size, align))
      ensures r.Given? ==> FirstFit(old(blocks), i, size, align)
      ensures r.Wrapped? ==> old(hi) + size + align > ADDRESSES || old(hi) + 2 * HEADER > ADDRESSES
      ensures !r.Wrapped? ==> Valid() && lo == old(lo) && hi == old(hi)
      ensures r.Null? ==> blocks == old(blocks) && mem == old(mem)
      ensures r.Given? ==> blocks == old(blocks[..i] + Cut(blocks[i], size, align) + blocks[i + 1..])
      ensures r.Given? ==> r.ptr % align == 0 && old(blocks)[i].Inner() <= r.ptr < old(blocks)[i].Inner() + align
      ensures r.Given? ==> Live(blocks) == old(Live(blocks)) + {Allocation(r.ptr, size)}
      ensures r.Given? ==> i < |blocks| && UsedBlocks(blocks) == old(UsedBlocks(blocks)) + {blocks[i]}
      ensures r.Given? ==> CutFrom(old(blocks)[i], blocks[i], Allocation(r.ptr, size))
    {
      var current := listHead;
      i := 0;
      while current.Some?
        invariant i <= |blocks| && current == (if i < |blocks| then Some(blocks[i].addr) else None)
        invariant blocks == old(blocks) && mem == old(mem) && Valid() && lo == old(lo) && hi == old(hi)
        invariant forall k | 0 <= k < i :: !FitsWord(blocks[k], size, align)
        decreases |blocks| - i
      {
        var block := current.value;
        var passes, start, endAddr, maxAddr := Test(block, size, align, i);
        if passes {
          assert blocks[i] in old(blocks);
          r := Take(block, start, endAddr, maxAddr, size, align, i);
          return;
        }
        current := GetNext(block, i);
        i := i + 1;
      }
      NoneFits(blocks, lo, hi, size, align);
      r := Null;
    }

    /** The test of one block, in 64-bit arithmetic. */
    method Test(block: nat, size: nat, align: nat, ghost i: nat)
      returns (passes: bool, start: nat, endAddr: nat, maxAddr: nat)
      requires Valid() && size > 0 && align > 0 && i < |blocks| && block == blocks[i].addr
      ensures passes == FitsWord(blocks[i], size, align)
      ensures start == Wrap(NextMultiple(block + HEADER, align)) && endAddr == Wrap(start + (size - 1))
      ensures maxAddr + 1 == blocks[i].End()
    {
      BlockAt(blocks, lo, hi, i);
      var unalignedStart := block + HEADER;
      start := Wrap(NextMultiple(unalignedStart, align));
      maxAddr := unalignedStart + (mem[block].len - 1);
      endAddr := Wrap(start + (size - 1));
      passes := !mem[block].used && endAddr <= maxAddr;
    }

    /** The first block that passes the test is reserved, unless the request ends too near the highest address. */
    method Take(block: nat, start: nat, endAddr: nat, maxAddr: nat, size: nat, align: nat, ghost i: nat) returns (r: Outcome)
      requires Valid() && size > 0 && align > 0 && FirstWordFit(blocks, i, size, align) && block == blocks[i].addr
      requires start == Wrap(NextMultiple(block + HEADER, align)) && endAddr == Wrap(start + (size - 1))
      requires maxAddr + 1 == blocks[i].End()
      modifies this`mem, this`blocks
      ensures !r.Null? && (r.Wrapped? <==> Overruns(old(blocks)[i], size, align))
      ensures FirstFit(old(blocks), i, size, align) <==> !Passes(old(blocks)[i], size, align)
      ensures hi + 2 * HEADER <= ADDRESSES ==> (r.Given? <==> FirstFit(old(blocks), i, size, align))
      ensures r.Given? ==> FirstFit(old(blocks), i, size, align)
      ensures r.Wrapped? ==> hi + size + align > ADDRESSES || hi + 2 * HEADER > ADDRESSES
      ensures r.Given? ==> Valid() && blocks == old(blocks[..i] + Cut(blocks[i], size, align) + blocks[i + 1..])
      ensures r.Given? ==> r.ptr == NextMultiple(old(blocks)[i].Inner(), align)
      ensures r.Given? ==> r.ptr % align == 0 && old(blocks)[i].Inner() <= r.ptr < old(blocks)[i].Inner() + align
      ensures r.Given? ==> Live(blocks) == old(Live(blocks)) + {Allocation(r.ptr, size)}
      ensures r.Given? ==> i < |blocks| && UsedBlocks(blocks) == old(UsedBlocks(blocks)) + {blocks[i]}
      ensures r.Given? ==> CutFrom(old(blocks)[i], blocks[i], Allocation(r.ptr, size))
    {
      FirstFits(blocks, lo, hi, i, size, align);
      if NextMultiple(block + HEADER, align) + size > ADDRESSES - 2 * HEADER {
        return Wrapped;
      }
      NextMultipleIs(block + HEADER, align);
      NoWrap(NextMultiple(block + HEADER, align), size);
      Reserve(block, start, endAddr, maxAddr, size, align, i);
      r := Given(start);
    }

    /** Marks the block used and splits it if enough is left. */
    method Reserve(block: nat, start: nat, endAddr: nat, maxAddr: nat, size: nat, align: nat, ghost i: nat)
      requires Valid() && size > 0 && align > 0 && i < |blocks| && block == blocks[i].addr && Fits(blocks[i], size, align)
      requires start == NextMultiple(blocks[i].Inner(), align) && endAddr + 1 == start + size && maxAddr + 1 == blocks[i].End()
      requires !Overruns(blocks[i], size, align)
      modifies this`mem, this`blocks
      ensures Valid() && blocks == old(blocks[..i] + Cut(blocks[i], size, align) + blocks[i + 1..])
      ensures Live(blocks) == old(Live(blocks)) + {Allocation(start, size)}
      ensures i < |blocks| && UsedBlocks(blocks) == old(UsedBlocks(blocks)) + {blocks[i]}
      ensures CutFrom(old(blocks)[i], blocks[i], Allocation(start, size))
    {
      ghost var x, a, y := blocks[..i], blocks[i], blocks[i + 1..];
      SplitAt(blocks, i);
      AllocKeeps(x, a, y, size, align, lo, hi);
      Split(block, start, endAddr, maxAddr, size, align, x, a, y);
      blocks := x + Cut(a, size, align) + y;
    }

    /** Writes the header of the reserved block and, if enough is left, the header behind it. */
    method Split(block: nat, start: nat, endAddr: nat, maxAddr: nat, size: nat, align: nat,
                 ghost x: seq<Area>, ghost a: Area, ghost y: seq<Area>)
      requires Tiles(x + [a] + y, lo, hi) && Chain(mem, x + [a] + y)
      requires size > 0 && align > 0 && block == a.addr && Fits(a, size, align) && !Overruns(a, size, align)
      requires start == NextMultiple(a.Inner(), align) && endAddr + 1 == start + size && maxAddr + 1 == a.End()
      modifies this`mem
      ensures Chain(mem, x + Cut(a, size, align) + y)
    {
      ghost var mem0: map<nat, Block> := mem;
      Around(mem, x, a, y, lo, hi);
      CutHeaders(a, size, align, y != []);
      RoomBehind(endAddr + 1);
      WriteHeaders(block, Wrap(NextMultiple(Wrap(endAddr + 1), HEADER)), maxAddr, a, y != []);
      ReserveSplice(mem0, mem, x, a, y, Cut(a, size, align), lo, hi);
    }

    method WriteHeaders(block: nat, newBlock: nat, maxAddr: nat, ghost a: Area, ghost more: bool)
      requires block == a.addr && block in mem && mem[block] == Block(a.len, false, more)
      requires a.Inner() <= newBlock && maxAddr + 1 == a.End() && newBlock + HEADER < ADDRESSES
      modifies this`mem
      ensures newBlock + HEADER + 1 < a.End() ==>
        mem == old(mem)[block := Block(newBlock - a.Inner(), true, true)]
                       [newBlock := Block(a.End() - (newBlock + HEADER), false, more)]
      ensures newBlock + HEADER + 1 >= a.End() ==> mem == old(mem)[block := Block(a.len, true, more)]
    {
      mem := mem[block := mem[block].(used := true)];
      var newSpace := Wrap(newBlock + HEADER);
      if newSpace < maxAddr {
        mem := mem[block := mem[block].(len := newBlock - (block + HEADER))];
        mem := mem[newBlock := Block(maxAddr - newSpace + 1, false, mem[block].hasNext)];
        mem := mem[block := mem[block].(hasNext := true)];
      }
    }

    /** Frees an allocation and joins its block with free neighbours. */
    method Dealloc(ptr: nat, ghost p: Allocation) returns (ghost i: nat)
      requires Valid() && p in Live(blocks) && p.ptr == ptr
      modifies this`mem, this`blocks
      ensures Valid() && i < |old(blocks)| && old(blocks)[i].owner == Some(p)
      ensures blocks == old(Freed(blocks[..i], blocks[i], blocks[i + 1..]))
      ensures Live(blocks) == old(Live(blocks)) - {p}
      ensures UsedBlocks(blocks) == old(UsedBlocks(blocks)) - {old(blocks)[i]}
      ensures forall a | a in old(blocks) && (a.owner.None? || a.owner == Some(p)) :: InFree(a, blocks)
    {
      var previous: Option<nat> := None;
      var current := listHead;
      i := 0;
      while true
        invariant i < |blocks| && current == Some(blocks[i].addr)
        invariant previous == (if i > 0 then Some(blocks[i - 1].addr) else None)
        invariant blocks == old(blocks) && mem == old(mem) && Valid()
        invariant exists k :: i <= k < |blocks| && blocks[k].owner == Some(p)
        decreases |blocks| - i
      {
        var block := current.value;
        BlockAt(blocks, lo, hi, i);
        var minAddr := block + HEADER;
        var maxAddr := minAddr + (mem[block].len - 1);
        if minAddr <= ptr <= maxAddr {
          HoldsIt(blocks, lo, hi, i, p);
          assert mem[block].used;
          Release(block, previous, i);
          OnlyOwner(old(blocks), lo, hi, i, p);
          return;
        }
        assert blocks[i].owner != Some(p);
        previous := current;
        current := GetNext(block, i);
        i := i + 1;
      }
    }

    method Release(block: nat, previous: Option<nat>, ghost i: nat)
      requires Valid() && i < |blocks| && block == blocks[i].addr && blocks[i].owner.Some?
      requires previous == if i > 0 then Some(blocks[i - 1].addr) else None
      modifies this`mem, this`blocks
      ensures Valid() && blocks == old(Freed(blocks[..i], blocks[i], blocks[i + 1..]))
      ensures Live(blocks) == old(Live(blocks)) - {old(blocks)[i].owner.value}
      ensures UsedBlocks(blocks) == old(UsedBlocks(blocks)) - {old(blocks)[i]}
      ensures forall a | a in old(blocks) && (a.owner.None? || a == old(blocks)[i]) :: InFree(a, blocks)
    {
      ghost var x, a, y := blocks[..i], blocks[i], blocks[i + 1..];
      SplitAt(blocks, i);
      FreedTiles(x, a, y, lo, hi);
      FreedPairs(x, a, y);
      FreedLive(x, a, y, lo, hi);
      FreedUsed(x, a, y, lo, hi);
      forall b | b in blocks && (b.owner.None? || b == a)
        ensures InFree(b, Freed(x, a, y))
      {
        FreedFree(x, a, y, lo, hi, b);
      }
      JoinForward(block, x, a, y);
      JoinBackward(block, previous, x, a, y);
      blocks := Freed(x, a, y);
    }

    /** The block is marked free and takes in the block behind it, if that is free. */
    method JoinForward(block: nat, ghost x: seq<Area>, ghost a: Area, ghost y: seq<Area>)
      requires Tiles(x + [a] + y, lo, hi) && Chain(mem, x + [a] + y) && block == a.addr
      modifies this`mem
      ensures Chain(mem, x + [JoinedForward(a, y)] + RestForward(y))
    {
      ghost var mem0 := mem;
      Around(mem, x, a, y, lo, hi);
      mem := mem[block := mem[block].(used := false)];
      if mem[block].hasNext {
        var next := block + HEADER + mem[block].len;
        if !mem[next].used {
          mem := mem[block := Block(mem[block].len + HEADER + mem[next].len, false, mem[block].hasNext)];
          mem := mem[block := mem[block].(hasNext := mem[next].hasNext)];
        }
      }
      ForwardSplice(mem0, mem, x, a, y);
    }

    /** The block in front takes the block in, if it is free. */
    method JoinBackward(block: nat, previous: Option<nat>, ghost x: seq<Area>, ghost a: Area, ghost y: seq<Area>)
      requires Tiles(x + [a] + y, lo, hi) && Chain(mem, x + [JoinedForward(a, y)] + RestForward(y)) && block == a.addr
      requires previous == if x != [] then Some(x[|x| - 1].addr) else None
      modifies this`mem
      ensures Chain(mem, Freed(x, a, y))
    {
      ghost var m, rest, mem0 := JoinedForward(a, y), RestForward(y), mem;
      if previous.Some? {
        ghost var z, b := x[..|x| - 1], x[|x| - 1];
        assert x == z + [b];
        assert x + [m] + rest == z + [b, m] + rest;
        BackwardPlaces(mem, x, a, y, lo, hi);
        if !mem[previous.value].used {
          mem := mem[previous.value := mem[previous.value].(len := mem[previous.value].len + HEADER + mem[block].len)];
          mem := mem[previous.value := mem[previous.value].(hasNext := mem[block].hasNext)];
          ChainSplice(mem0, mem, z, [b, m], [Area(b.addr, b.len + HEADER + m.len, None)], rest);
        }
      }
    }

    /** An allocation that is freed at once leaves the list of blocks as it was. */
    method AllocThenFree(size: nat, align: nat) returns (r: Outcome, ghost i: nat)
      requires Valid() && size > 0 && align > 0
      modifies this
      ensures r.Null? <==> forall a | a in old(blocks) :: !FitsWord(a, size, align)
      ensures !r.Null? ==> FirstWordFit(old(blocks), i, size, align)
      ensures !r.Null? ==> (r.Wrapped? <==> Overruns(old(blocks)[i], size, align))
      ensures !r.Wrapped? ==> Valid() && blocks == old(blocks)
      ensures r.Wrapped? ==> old(hi) + size + align > ADDRESSES || old(hi) + 2 * HEADER > ADDRESSES
    {
      r, i := Alloc(size, align);
      if r.Given? {
        ghost var x, a, y := old(blocks)[..i], old(blocks)[i], old(blocks)[i + 1..];
        ghost var c, s, p := Cut(a, size, align), blocks, Allocation(r.ptr, size);
        SplitAt(old(blocks), i);
        FreeAfterAlloc(x, a, y, size, align, lo, hi);
        SpliceParts(x, c, y);
        ghost var k := Dealloc(r.ptr, p);
        OwnerOnce(s, lo, hi, i, k, p);
      }
    }

    method DeallocLive(p: Allocation)
      requires Valid() && p in Live(blocks)
      modifies this`mem, this`blocks
      ensures Valid() && Live(blocks) == old(Live(blocks)) - {p} && blocks != []
    {
      ghost var k := Dealloc(p.ptr, p);
      assert old(blocks)[k] in old(blocks) && InFree(old(blocks)[k], blocks);
    }

    /** Once every allocation is freed, in whatever order, the heap is the one block it began as. */
    method FreeAll(order: seq<Allocation>)
      requires Valid() && blocks != []
      requires (forall p :: p in order <==> p in Live(blocks)) && forall i, j | 0 <= i < j < |order| :: order[i] != order[j]
      modifies this
      ensures Valid() && lo == old(lo) && hi == old(hi) && hi >= lo + HEADER && blocks == [Area(lo, hi - lo - HEADER, None)]
    {
      for i := 0 to |order|
        invariant Valid() && blocks != [] && lo == old(lo) && hi == old(hi)
        invariant forall p :: p in order[i..] <==> p in Live(blocks)
      {
        RestOfOrder(order, i);
        DeallocLive(order[i]);
      }
      NothingLive(blocks);
      AllFree(blocks, lo, hi);
    }
  }

  lemma RestOfOrder(order: seq<Allocation>, i: nat)
    requires i < |order| && forall j, k | 0 <= j < k < |order| :: order[j] != order[k]
    ensures forall p :: p in order[i..] <==> p == order[i] || p in order[i + 1..]
    ensures order[i] !in order[i + 1..]
  {
    assert order[i..] == [order[i]] + order[i + 1..];
  }

  lemma NoWrap(start: nat, size: nat)
    requires size > 0 && start + size <= ADDRESSES
    ensures Wrap(start) == start && Wrap(start + (size - 1)) == start + (size - 1)
  {
  }

  /** The header of `a`, and of the block behind it, in memory. */
  lemma Around(mem: map<nat, Block>, x: seq<Area>, a: Area, y: seq<Area>, lo: nat, hi: nat)
    requires Tiles(x + [a] + y, lo, hi) && Chain(mem, x + [a] + y)
    ensures a.addr in mem && mem[a.addr] == HeaderOf(a, y != [])
    ensures y != [] ==> y[0].addr == a.End() && y[0].addr in mem && mem[y[0].addr] == HeaderOf(y[0], |y| > 1)
    ensures forall b | b in x || b in y :: b.addr in mem && b.addr != a.addr
  {
    var s := x + [a] + y;
    assert s[|x|] == a;
    BlockAt(s, lo, hi, |x|);
    assert s[..|x|] == x && s[|x| + 1..] == y;
    if y != [] {
      assert s[|x| + 1] == y[0];
    }
    forall b | b in x || b in y
      ensures b.addr in mem
    {
      var k :| 0 <= k < |s| && s[k] == b;
    }
  }

  lemma ForwardSplice(mem: map<nat, Block>, mem': map<nat, Block>, x: seq<Area>, a: Area, y: seq<Area>)
    requires Chain(mem, x + [a] + y) && a.addr in mem'
    requires mem' == mem[a.addr := HeaderOf(JoinedForward(a, y), RestForward(y) != [])]
    requires forall b | b in x || b in y :: b.addr in mem && b.addr != a.addr
    ensures Chain(mem', x + [JoinedForward(a, y)] + RestForward(y))
  {
    if RestForward(y) == y {
      ChainSplice(mem, mem', x, [a], [JoinedForward(a, y)], y);
    } else {
      assert y == [y[0]] + y[1..];
      assert x + [a] + y == x + [a, y[0]] + y[1..];
      ChainSplice(mem, mem', x, [a, y[0]], [JoinedForward(a, y)], y[1..]);
    }
  }

  /** The headers of the joined block and of the block in front of it. */
  lemma BackwardPlaces(mem: map<nat, Block>, x: seq<Area>, a: Area, y: seq<Area>, lo: nat, hi: nat)
    requires Tiles(x + [a] + y, lo, hi) && Chain(mem, x + [JoinedForward(a, y)] + RestForward(y)) && x != []
    ensures var b := x[|x| - 1];
      && b.addr in mem && mem[b.addr] == HeaderOf(b, true) && b.addr != a.addr
      && a.addr in mem && mem[a.addr] == HeaderOf(JoinedForward(a, y), RestForward(y) != [])
      && forall c | c in x[..|x| - 1] || c in RestForward(y) :: c.addr in mem && c.addr != b.addr
  {
    var b, m, rest := x[|x| - 1], JoinedForward(a, y), RestForward(y);
    var s, n := x + [m] + rest, |x|;
    assert s[n - 1] == b && s[n] == m;
    forall c | c in x[..n - 1] || c in rest
      ensures c.addr in mem
    {
      assert c in s;
      var k :| 0 <= k < |s| && s[k] == c;
    }
    var w := x + [a] + y;
    assert w[n - 1] == b && w[..n - 1] == x[..n - 1] && w[n] == a && w[n..] == [a] + y;
    BlockAt(w, lo, hi, n - 1);
    assert forall c | c in rest :: c in w[n..];
  }

  /** What the headers of the pieces say. */
  lemma CutHeaders(a: Area, size: nat, align: nat, more: bool)
    requires align > 0 && size > 0 && Fits(a, size, align)
    ensures var next := NextMultiple(NextMultiple(a.Inner(), align) + size, HEADER); var c := Cut(a, size, align);
      && a.Inner() <= next && c[0].addr == a.addr && (|c| == 2 <==> next + HEADER + 1 < a.End())
      && (|c| == 1 ==> HeaderOf(c[0], more) == Block(a.len, true, more))
      && (|c| == 2 ==>
           && c[1].addr == next && a.addr < next < a.End() && HeaderOf(c[0], true) == Block(next - a.Inner(), true, true)
           && HeaderOf(c[1], more) == Block(a.End() - (next + HEADER), false, more))
  {
    NextMultipleIs(a.Inner(), align);
    NextMultipleIs(NextMultiple(a.Inner(), align) + size, HEADER);
  }

  /** The headers that a reservation writes keep the rest of the list. */
  lemma ReserveSplice(mem: map<nat, Block>, mem': map<nat, Block>, x: seq<Area>, a: Area, y: seq<Area>, c: seq<Area>,
                      lo: nat, hi: nat)
    requires Tiles(x + [a] + y, lo, hi) && Chain(mem, x + [a] + y)
    requires 1 <= |c| <= 2 && c[0].addr == a.addr && (|c| == 2 ==> a.addr < c[1].addr < a.End())
    requires |c| == 1 ==> mem' == mem[a.addr := HeaderOf(c[0], y != [])]
    requires |c| == 2 ==> mem' == mem[a.addr := HeaderOf(c[0], true)][c[1].addr := HeaderOf(c[1], y != [])]
    ensures Chain(mem', x + c + y)
  {
    Around(mem, x, a, y, lo, hi);
    var s := x + [a] + y;
    assert s[|x|] == a && s[..|x|] == x && s[|x| + 1..] == y;
    BlockAt(s, lo, hi, |x|);
    ChainSplice(mem, mem', x, [a], c, y);
  }
}
