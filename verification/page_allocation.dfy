/** The physical page allocator and the kernel's page tables, which take their pages from it. */
module PageAllocation {
  import opened Wrappers
  import opened Paging
  import opened PageBitmap
  import opened PageTables

  datatype MapPageError = OutOfPages | PageAlreadyExists

  type MapResult = Result<(), MapPageError>

  /**
   * Every held page is accounted for exactly once: it was reserved at boot, it is a table, it is
   * owned as data, or it is in the hands of the running operation.
   */
  ghost predicate Accounts(bits: seq<bool>, total: nat, reserved: set<nat>, tables: set<nat>, owned: set<nat>, inHand: set<nat>) {
    && total <= |bits| && total <= LOW_FRAMES && |bits| > 0 && 0 in reserved
    && (forall p | 0 <= p < |bits| :: bits[p] <==> p in reserved || p in tables || p in owned || p in inHand)
    && (forall p | p in owned || p in inHand :: p < total)
    && (forall p | p in tables :: p < |bits|)
    && (forall p | total <= p < |bits| :: p in reserved)
    && reserved !! tables && reserved !! owned && reserved !! inHand
    && tables !! owned && tables !! inHand && owned !! inHand
  }

  lemma TakePage(bits: seq<bool>, total: nat, reserved: set<nat>, tables: set<nat>, owned: set<nat>, inHand: set<nat>, p: nat)
    requires Accounts(bits, total, reserved, tables, owned, inHand) && p < |bits| && !bits[p]
    ensures p != 0 && p < total && p !in tables
    ensures Accounts(bits[p := true], total, reserved, tables, owned, inHand + {p})
  {
  }

  lemma PageTaken(bits: seq<bool>, total: nat, reserved: set<nat>, at: TableMap, owned: set<nat>, inHand: set<nat>, p: nat,
                  mem: Memory, root: nat)
    requires Accounts(bits, total, reserved, at.Values, owned, inHand) && TableTree(mem, root, at) && p < |bits| && !bits[p]
    ensures p != 0 && p < total && p !in at.Values && p !in inHand
    ensures Accounts(bits[p := true], total, reserved, at.Values, owned, inHand + {p})
    ensures ClearCount(bits[p := true]) == ClearCount(bits) - 1
    ensures TableTree(mem[p := BLANK], root, at) && SameTranslations(mem, mem[p := BLANK], root)
  {
    TakePage(bits, total, reserved, at.Values, owned, inHand, p);
    CountUpdate(bits, p, true);
    OutsideTree(mem, root, at, p, BLANK);
  }

  /** Freeing a page keeps the count right if and only if the page was held. */
  lemma FreeingHeld(bits: seq<bool>, p: nat, free: nat)
    requires p < |bits| && free == ClearCount(bits)
    ensures free + 1 == ClearCount(bits[p := false]) <==> bits[p]
  {
    CountUpdate(bits, p, false);
  }

  lemma ReturnPage(bits: seq<bool>, total: nat, reserved: set<nat>, tables: set<nat>, owned: set<nat>, inHand: set<nat>, p: nat)
    requires Accounts(bits, total, reserved, tables, owned, inHand) && p in inHand
    ensures p < total && bits[p] && Accounts(bits[p := false], total, reserved, tables, owned, inHand - {p})
  {
  }

  ghost function BitsWithout(bits: seq<bool>, total: nat, p: nat): seq<bool>
    requires total <= |bits|
  {
    if p < total then bits[p := false] else bits
  }

  /** Freeing what an entry names keeps the books if and only if the page is owned or past the end. */
  lemma FreeingNamed(bits: seq<bool>, total: nat, reserved: set<nat>, tables: set<nat>, owned: set<nat>, p: nat)
    requires Accounts(bits, total, reserved, tables, owned, {})
    ensures var bits' := BitsWithout(bits, total, p);
      && Accounts(bits', total, reserved, tables, owned - {p}, {})
      && ClearCount(bits) + One(p < total) == ClearCount(bits')
      <==> p in owned || p >= total
  {
    if p < total {
      FreeingHeld(bits, p, ClearCount(bits));
      if p !in owned && bits[p] {
        assert p in reserved || p in tables;
        assert !bits[p := false][p];
      }
    } else {
      assert owned - {p} == owned;
    }
  }

  class PageAllocator {
    const memoryBitmap: array<bv8>
    const totalPages: nat
    const pageTable: nat
    var freePages: nat
    var mem: Memory
    ghost const reserved: set<nat>
    ghost var at: TableMap
    ghost var owned: set<nat>

    ghost function Bits(): seq<bool>
      reads memoryBitmap
    {
      BitsOf(memoryBitmap[..])
    }

    ghost predicate Inv(inHand: set<nat>)
      reads this, memoryBitmap
    {
      && Accounts(Bits(), totalPages, reserved, at.Values, owned, inHand)
      && freePages == ClearCount(Bits())
      && TableTree(mem, pageTable, at)
    }

    ghost predicate Valid()
      reads this, memoryBitmap
    {
      Inv({})
    }

    /**
     * The count of free pages is computed from the bitmap, whatever it holds. The allocator is in order
     * exactly if the bitmap accounts for the tables and the reserved pages, page zero among them.
     */
    constructor (pageTable: nat, memoryBitmap: array<bv8>, numPages: nat, mem: Memory,
                 ghost reserved: set<nat>, ghost at: TableMap)
      ensures this.memoryBitmap == memoryBitmap && totalPages == numPages && this.pageTable == pageTable
      ensures this.mem == mem && this.reserved == reserved && this.at == at && owned == {}
      ensures freePages == ClearCount(Bits())
      ensures Valid() <==> Accounts(Bits(), numPages, reserved, at.Values, {}, {}) && TableTree(mem, pageTable, at)
    {
      var free := CountFreePages(memoryBitmap[..]);
      this.memoryBitmap, totalPages, freePages, this.pageTable := memoryBitmap, numPages, free, pageTable;
      this.mem, this.reserved, this.at, owned := mem, reserved, at, {};
    }

    /** The lowest free page, cleared; nothing when every page is held. */
    method FindAndReservePage(ghost inHand: set<nat>) returns (r: Option<nat>)
      requires Inv(inHand)
      modifies this`freePages, this`mem, memoryBitmap
      ensures r.None? ==> freePages == 0 == old(freePages) && Bits() == old(Bits()) && mem == old(mem) && Inv(inHand)
      ensures r.Some? ==>
        && r.value < |old(Bits())| && !old(Bits())[r.value] && (forall p | 0 <= p < r.value :: old(Bits())[p])
        && r.value != 0 && r.value < totalPages && r.value !in at.Values && r.value !in inHand
        && Bits() == old(Bits())[r.value := true] && freePages == old(freePages) - 1
        && mem == old(mem)[r.value := BLANK] && Inv(inHand + {r.value})
        && SameTranslations(old(mem), mem, pageTable)
    {
      ghost var bits, bytes := Bits(), memoryBitmap[..];
      for byteIndex := 0 to memoryBitmap.Length
        invariant memoryBitmap[..] == bytes && mem == old(mem) && freePages == old(freePages)
        invariant forall p | 0 <= p < 8 * byteIndex :: bits[p]
      {
        var byte := memoryBitmap[byteIndex];
        RowOf(bytes, byteIndex);
        if byte != 0xFF {
          var bitIndex := LeadingOnes(byte);
          FirstInRow(bits, 8 * byteIndex, ByteBits(byte), bitIndex);
          TakeAndClear(byteIndex, bitIndex, inHand);
          return Some(8 * byteIndex + bitIndex);
        }
        FullByte(byte);
        AllInRow(bits, 8 * byteIndex, ByteBits(byte));
      }
      NoneClear(bits);
      r := None;
    }

    method TakeAndClear(byteIndex: nat, bitIndex: nat, ghost inHand: set<nat>)
      requires Inv(inHand) && byteIndex < memoryBitmap.Length && bitIndex < 8 && !Bits()[8 * byteIndex + bitIndex]
      modifies this`freePages, this`mem, memoryBitmap
      ensures var page := 8 * byteIndex + bitIndex;
        && page != 0 && page < totalPages && page !in at.Values && page !in inHand
        && Bits() == old(Bits())[page := true] && freePages == old(freePages) - 1
        && mem == old(mem)[page := BLANK] && Inv(inHand + {page})
        && SameTranslations(old(mem), mem, pageTable)
    {
      ghost var page := 8 * byteIndex + bitIndex;
      PageTaken(Bits(), totalPages, reserved, at, owned, inHand, page, mem, pageTable);
      SetBit(byteIndex, bitIndex);
      freePages := freePages - 1;
      mem := mem[8 * byteIndex + bitIndex := BLANK];
    }

    method SetBit(byteIndex: nat, bitIndex: nat)
      requires byteIndex < memoryBitmap.Length && bitIndex < 8
      modifies memoryBitmap
      ensures Bits() == old(Bits())[8 * byteIndex + bitIndex := true]
    {
      ghost var bytes := memoryBitmap[..];
      BitsSet(bytes, byteIndex, bitIndex);
      memoryBitmap[byteIndex] := memoryBitmap[byteIndex] | Mask(bitIndex);
      assert memoryBitmap[..] == bytes[byteIndex := bytes[byteIndex] | Mask(bitIndex)];
    }

    /** A page past the end is ignored; for any other page the bit is cleared and the count goes up. */
    method FreePage(page: nat)
      requires totalPages <= 8 * memoryBitmap.Length
      modifies this`freePages, memoryBitmap
      ensures page >= totalPages ==> Bits() == old(Bits()) && freePages == old(freePages)
      ensures page < totalPages ==> Bits() == old(Bits())[page := false] && freePages == old(freePages) + 1
    {
      var byteIndex, bitOffset := page / 8, page % 8;
      if byteIndex * 8 + bitOffset >= totalPages {
        return;
      }
      ghost var bytes := memoryBitmap[..];
      assert page == 8 * byteIndex + bitOffset;
      BitsClear(bytes, byteIndex, bitOffset);
      memoryBitmap[byteIndex] := memoryBitmap[byteIndex] & !Mask(bitOffset);
      assert memoryBitmap[..] == bytes[byteIndex := bytes[byteIndex] & !Mask(bitOffset)];
      freePages := freePages + 1;
    }

    // ----- data pages -----

    /** A page is handed out while nobody holds it. */
    method ReservePage() returns (r: Option<nat>)
      requires Valid()
      modifies this, memoryBitmap
      ensures Valid() && at == old(at) && SameTranslations(old(mem), mem, pageTable)
      ensures r.None? <==> old(freePages) == 0
      ensures r.None? ==> freePages == 0 && owned == old(owned) && Bits() == old(Bits()) && mem == old(mem)
      ensures r.Some? ==> mem == old(mem)[r.value := BLANK]
      ensures r.Some? ==> r.value !in old(owned) && r.value !in at.Values && owned == old(owned) + {r.value}
      ensures r.Some? ==> freePages == old(freePages) - 1 && forall p | 0 <= p < r.value :: old(Bits())[p]
    {
      r := FindAndReservePage({});
      if r.Some? {
        owned := owned + {r.value};
      }
    }

    method ReleasePage(page: nat)
      requires Valid() && page in owned
      modifies this, memoryBitmap
      ensures Valid() && owned == old(owned) - {page} && at == old(at) && mem == old(mem)
      ensures Bits() == old(Bits())[page := false] && freePages == old(freePages) + 1
    {
      owned := owned - {page};
      FreeInHand(page, {page});
    }

    method FreeInHand(page: nat, ghost inHand: set<nat>)
      requires Inv(inHand) && page in inHand
      modifies this`freePages, memoryBitmap
      ensures Inv(inHand - {page}) && Bits() == old(Bits())[page := false] && freePages == old(freePages) + 1
    {
      ghost var bits := Bits();
      ReturnPage(bits, totalPages, reserved, at.Values, owned, inHand, page);
      CountUpdate(bits, page, false);
      FreePage(page);
    }

    // ----- translations -----

    /** Adds one translation and nothing else; missing tables are created on the way. */
    method MapPageTranslation(page: nat, path: seq<nat>, flags: PageFlags, ghost inHand: set<nat>) returns (r: MapResult)
      requires Indices(path) && Inv(inHand)
      modifies this`freePages, this`mem, this`at, memoryBitmap
      ensures Inv(inHand) && SameElsewhere(old(mem), mem, pageTable, path)
      ensures r.Ok? <==> old(Walk(mem, pageTable, path)).None? && old(freePages) >= old(TablesMissing(at, path))
      ensures r.Ok? ==> Walk(mem, pageTable, path) == if flags.present then Some(WithFrame(flags, page)) else None
      ensures r == Err(PageAlreadyExists) <==> old(Walk(mem, pageTable, path)).Some?
      ensures r == Err(PageAlreadyExists) ==> mem == old(mem) && at == old(at) && Bits() == old(Bits()) && freePages == old(freePages)
      ensures r == Err(OutOfPages) <==> old(freePages) < old(TablesMissing(at, path))
      ensures r == Err(OutOfPages) ==> freePages == 0
      ensures r.Err? ==> SameTranslations(old(mem), mem, pageTable)
      ensures Grown(old(at), at) && freePages + |at| == old(freePages) + |old(at)|
      ensures r.Ok? ==> Along(path, 3) in at && freePages == old(freePages) - old(TablesMissing(at, path))
      ensures r.Ok? ==> mem[at[Along(path, 3)]][path[3]] == WithFrame(flags, page)
      ensures Extended(old(mem), old(at), mem, at, path) && OthersKept(old(mem), mem, at.Values)
    {
      NoneMissing(mem, pageTable, at, path);
      var last := LastTable(path, inHand);
      if last.None? {
        return Err(OutOfPages);
      }
      ghost var walked := mem;
      NoneMissing(mem, pageTable, at, path);
      r := SetTranslation(last.value, page, path, flags, inHand);
      SameThenElsewhere(old(mem), walked, mem, pageTable, path);
      ExtendedTwice(old(mem), old(at), walked, at, mem, at, path);
    }

    /** The first three levels: the table of the last level, reached or created. */
    method LastTable(path: seq<nat>, ghost inHand: set<nat>) returns (last: Option<nat>)
      requires Indices(path) && Inv(inHand)
      modifies this`freePages, this`mem, this`at, memoryBitmap
      ensures Inv(inHand) && SameTranslations(old(mem), mem, pageTable)
      ensures last.None? ==> freePages == 0 < TablesMissing(at, path)
      ensures last.Some? ==> Along(path, 3) in at && last.value == at[Along(path, 3)]
      ensures Grown(old(at), at) && freePages + |at| == old(freePages) + |old(at)|
      ensures freePages + old(TablesMissing(at, path)) == old(freePages) + TablesMissing(at, path)
      ensures Extended(old(mem), old(at), mem, at, path) && OthersKept(old(mem), mem, at.Values)
      ensures old(Walk(mem, pageTable, path)).None?
        || (last.Some? && mem == old(mem) && at == old(at) && Bits() == old(Bits()) && freePages == old(freePages))
    {
      var current := pageTable;
      for i := 0 to 3
        invariant Inv(inHand) && Along(path, i) in at && current == at[Along(path, i)]
        invariant SameTranslations(old(mem), mem, pageTable)
        invariant Grown(old(at), at) && freePages + |at| == old(freePages) + |old(at)|
        invariant freePages + old(TablesMissing(at, path)) == old(freePages) + TablesMissing(at, path)
        invariant Extended(old(mem), old(at), mem, at, path) && OthersKept(old(mem), mem, at.Values)
        invariant old(Walk(mem, pageTable, path)).None?
          || (mem == old(mem) && at == old(at) && Bits() == old(Bits()) && freePages == old(freePages))
      {
        ghost var before, tables := mem, at;
        var next := FollowOrCreate(current, path, i, inHand);
        SameTwice(old(mem), before, mem, pageTable);
        ExtendedTwice(old(mem), old(at), before, tables, mem, at, path);
        OthersTwice(old(mem), before, tables, mem, at);
        if next.None? {
          return None;
        }
        current := next.value;
      }
      return Some(current);
    }

    /** The last level: the entry is written unless it is present. */
    method SetTranslation(current: nat, page: nat, path: seq<nat>, flags: PageFlags, ghost inHand: set<nat>) returns (r: MapResult)
      requires Indices(path) && Inv(inHand) && Along(path, 3) in at && current == at[Along(path, 3)]
      modifies this`mem
      ensures Inv(inHand) && SameElsewhere(old(mem), mem, pageTable, path)
      ensures r == if old(Walk(mem, pageTable, path)).Some? then Err(PageAlreadyExists) else Ok(())
      ensures r.Err? ==> mem == old(mem)
      ensures r.Ok? ==> Walk(mem, pageTable, path) == if flags.present then Some(WithFrame(flags, page)) else None
      ensures r.Ok? ==> mem[current][path[3]] == WithFrame(flags, page)
      ensures Extended(old(mem), at, mem, at, path) && OthersKept(old(mem), mem, {current})
    {
      LastExtends(mem, pageTable, at, path, WithFrame(flags, page));
      var index := path[3];
      PathFinds(mem, pageTable, at, path);
      if mem[current][index].flags.present {
        return Err(PageAlreadyExists);
      }
      SetLast(mem, pageTable, at, path, WithFrame(flags, page));
      mem := mem[current := mem[current][index := WithFrame(flags, page)]];
      return Ok(());
    }

    /** An upper level: the table behind the entry, created if the entry is not present. */
    method FollowOrCreate(current: nat, path: seq<nat>, i: nat, ghost inHand: set<nat>) returns (next: Option<nat>)
      requires Indices(path) && Inv(inHand) && i < 3 && Along(path, i) in at && current == at[Along(path, i)]
      modifies this`freePages, this`mem, this`at, memoryBitmap
      ensures Inv(inHand) && SameTranslations(old(mem), mem, pageTable)
      ensures next.None? ==> freePages == 0 < TablesMissing(at, path)
      ensures next.Some? ==> Along(path, i + 1) in at && next.value == at[Along(path, i + 1)]
      ensures Grown(old(at), at) && freePages + |at| == old(freePages) + |old(at)|
      ensures freePages + old(TablesMissing(at, path)) == old(freePages) + TablesMissing(at, path)
      ensures Extended(old(mem), old(at), mem, at, path) && OthersKept(old(mem), mem, at.Values)
      ensures old(Walk(mem, pageTable, path)).None?
        || (next.Some? && mem == old(mem) && at == old(at) && Bits() == old(Bits()) && freePages == old(freePages))
    {
      SameExtends(mem, at, path);
      if !mem[current][path[i]].flags.present {
        MissingTable(mem, pageTable, at, path, i);
        var done := NewTable(current, path, i, inHand);
        if !done {
          return None;
        }
      }
      NextTable(mem, pageTable, at, path, i);
      return Some(PageOf(mem[current][path[i]]));
    }

    /** A reserved page is linked in as the table behind one entry. */
    method NewTable(current: nat, path: seq<nat>, i: nat, ghost inHand: set<nat>) returns (done: bool)
      requires Indices(path) && Inv(inHand) && i < 3 && Along(path, i) in at && current == at[Along(path, i)]
      requires !mem[current][path[i]].flags.present
      modifies this`freePages, this`mem, this`at, memoryBitmap
      ensures Inv(inHand) && SameTranslations(old(mem), mem, pageTable)
      ensures !done ==> freePages == 0 == old(freePages) && at == old(at)
      ensures done ==> freePages == old(freePages) - 1 && Grown(old(at), at) && |at| == |old(at)| + 1
      ensures Along(path, i) in at && at[Along(path, i)] == current
      ensures done ==> mem[current][path[i]].flags.present
      ensures Extended(old(mem), old(at), mem, at, path) && OthersKept(old(mem), mem, at.Values)
      ensures TablesMissing(at, path) == old(TablesMissing(at, path)) - if done then 1 else 0
      ensures !done ==> TablesMissing(at, path) > 0
    {
      AbsentLink(mem, pageTable, at, path, i);
      var r := ReserveTable(current, path, inHand);
      if r.None? {
        return false;
      }
      ghost var before := mem;
      LinkTable(current, path, i, r.value, inHand);
      TableMade(old(mem), before, mem, pageTable, old(at), at, path, r.value, current);
      done := true;
    }

    method ReserveTable(current: nat, path: seq<nat>, ghost inHand: set<nat>) returns (r: Option<nat>)
      requires Indices(path) && Inv(inHand) && current in at.Values
      modifies this`freePages, this`mem, memoryBitmap
      ensures SameTranslations(old(mem), mem, pageTable) && Extended(old(mem), at, mem, at, path)
      ensures r.None? <==> old(freePages) == 0
      ensures r.None? ==> Inv(inHand) && freePages == 0 && mem == old(mem)
      ensures r.Some? ==>
        && Inv(inHand + {r.value}) && freePages == old(freePages) - 1 && OthersKept(old(mem), mem, {r.value})
        && r.value !in at.Values && r.value !in inHand && r.value < LOW_FRAMES && r.value in mem && mem[r.value] == BLANK
        && mem[current] == old(mem)[current]
    {
      SameExtends(mem, at, path);
      r := FindAndReservePage(inHand);
      if r.Some? {
        TakenExtends(old(mem), at, path, r.value);
      }
    }

    /** The cleared page in hand becomes the table behind one entry. */
    method LinkTable(current: nat, path: seq<nat>, i: nat, page: nat, ghost inHand: set<nat>)
      requires Indices(path) && Inv(inHand + {page}) && i < 3 && Along(path, i) in at && current == at[Along(path, i)]
      requires page !in at.Values && page !in inHand && page < LOW_FRAMES && page in mem && mem[page] == BLANK
      requires !mem[current][path[i]].flags.present
      modifies this`mem, this`at
      ensures Inv(inHand) && SameTranslations(old(mem), mem, pageTable)
      ensures Grown(old(at), at) && |at| == |old(at)| + 1 && mem[current][path[i]].flags.present
      ensures Extended(old(mem), old(at), mem, at, path) && OthersKept(old(mem), mem, {current}) && page in at.Values
      ensures TablesMissing(at, path) == old(TablesMissing(at, path)) - 1
    {
      AlongLevel(path, i);
      ghost var place := Along(path, i);
      AddTable(mem, pageTable, at, place, path[i], page);
      LinkExtends(mem, pageTable, at, path, i, page);
      OneTableMore(at, path, i, page);
      AddTableKeeps(mem, pageTable, at, place, path[i], page);
      TableInHand(Bits(), totalPages, reserved, at, owned, inHand, Behind(place, path[i]), page);
      mem := mem[current := mem[current][path[i] := WithFrame(READ_WRITE, page)]];
      at := at[Behind(place, path[i]) := page];
    }

    /** Maps the lowest free page at an address. A failure keeps every translation and returns the page. */
    method MapPage(path: seq<nat>, flags: PageFlags) returns (r: MapResult, ghost page: nat)
      requires Indices(path) && Valid()
      modifies this, memoryBitmap
      ensures Valid() && SameElsewhere(old(mem), mem, pageTable, path) && Grown(old(at), at)
      ensures r.Ok? ==>
        && page < |old(Bits())| && !old(Bits())[page] && (forall p | 0 <= p < page :: old(Bits())[p])
        && owned == old(owned) + {page} && freePages + |at| + 1 == old(freePages) + |old(at)|
        && page in mem && mem[page] == BLANK
        && old(Walk(mem, pageTable, path)).None?
        && Walk(mem, pageTable, path) == if flags.present then Some(Entry(flags, page)) else None
      ensures r.Err? ==> owned == old(owned) && SameTranslations(old(mem), mem, pageTable)
      ensures r.Err? ==> freePages + |at| == old(freePages) + |old(at)|
      ensures r == Err(PageAlreadyExists) <==> old(freePages) > 0 && old(Walk(mem, pageTable, path)).Some?
      ensures r == Err(PageAlreadyExists) ==> Bits() == old(Bits()) && freePages == old(freePages) && at == old(at)
      ensures r == Err(OutOfPages) <==> old(freePages) < 1 + old(TablesMissing(at, path))
      ensures Extended(old(mem), old(at), mem, at, path) && OthersKept(old(mem), mem, at.Values + {page})
    {
      SameExtends(mem, at, path);
      NoneMissing(mem, pageTable, at, path);
      page := 0;
      NoneClear(Bits());
      var newPage := FindAndReservePage({});
      if newPage.None? {
        return Err(OutOfPages), page;
      }
      page := newPage.value;
      ghost var taken := mem;
      assert {} + {page} == {page};
      assert old(Bits())[page := true][page := false] == old(Bits());
      TakenExtends(mem, at, path, page);
      TakenExtends(old(mem), at, path, page);
      r := MapReserved(newPage.value, path, flags);
      ExtendedTwice(old(mem), old(at), taken, old(at), mem, at, path);
      SameThenElsewhere(old(mem), taken, mem, pageTable, path);
      if r.Err? {
        SameTwice(old(mem), taken, mem, pageTable);
      }
    }

    /** The page in hand is mapped, or freed again. */
    method MapReserved(page: nat, path: seq<nat>, flags: PageFlags) returns (r: MapResult)
      requires Indices(path) && Inv({page})
      modifies this, memoryBitmap
      ensures Valid() && SameElsewhere(old(mem), mem, pageTable, path) && Grown(old(at), at)
      ensures r.Ok? ==>
        && owned == old(owned) + {page} && freePages + |at| == old(freePages) + |old(at)|
        && old(Walk(mem, pageTable, path)).None?
        && Walk(mem, pageTable, path) == if flags.present then Some(Entry(flags, page)) else None
      ensures r.Err? ==> owned == old(owned) && SameTranslations(old(mem), mem, pageTable)
      ensures r.Err? ==> freePages + |at| == old(freePages) + |old(at)| + 1
      ensures r == Err(PageAlreadyExists) <==> old(Walk(mem, pageTable, path)).Some?
      ensures r == Err(PageAlreadyExists) ==>
        page < |old(Bits())| && Bits() == old(Bits())[page := false] && freePages == old(freePages) + 1 && at == old(at)
      ensures r == Err(OutOfPages) <==> old(freePages) < old(TablesMissing(at, path))
      ensures Extended(old(mem), old(at), mem, at, path) && OthersKept(old(mem), mem, at.Values)
    {
      r := MapPageTranslation(page, path, flags, {page});
      assert WithFrame(flags, page) == Entry(flags, page) by {
        FrameKept(flags, page);
      }
      Settle(page, r.Ok?);
    }

    /** The page in hand becomes owned, or is freed. */
    method Settle(page: nat, kept: bool)
      requires Inv({page})
      modifies this`freePages, this`owned, memoryBitmap
      ensures Valid()
      ensures kept ==> owned == old(owned) + {page} && Bits() == old(Bits()) && freePages == old(freePages)
      ensures !kept ==> owned == old(owned) && freePages == old(freePages) + 1
      ensures !kept ==> page < |old(Bits())| && Bits() == old(Bits())[page := false]
    {
      if kept {
        owned := owned + {page};
      } else {
        FreeInHand(page, {page});
        assert {page} - {page} == {};
      }
    }

    /**
     * Removes one translation, if there is one, and frees the page it names. The books stay in order
     * exactly if that page is owned or past the last page.
     */
    method UnmapAndFreePage(path: seq<nat>)
      requires Indices(path) && Valid()
      modifies this, memoryBitmap
      ensures at == old(at) && TableTree(mem, pageTable, at)
      ensures SameElsewhere(old(mem), mem, pageTable, path) && Walk(mem, pageTable, path).None?
      ensures old(Walk(mem, pageTable, path)).None? ==>
        Valid() && mem == old(mem) && Bits() == old(Bits()) && freePages == old(freePages) && owned == old(owned)
      ensures old(Walk(mem, pageTable, path)).Some? ==>
        var page := PageOf(old(Walk(mem, pageTable, path)).value);
        && owned == old(owned) - {page} && freePages == old(freePages) + One(page < totalPages)
        && Bits() == BitsWithout(old(Bits()), totalPages, page)
        && (Valid() <==> page in old(owned) || page >= totalPages)
        && Along(path, 3) in at && at[Along(path, 3)] in old(mem)
        && mem == old(mem)[at[Along(path, 3)] := old(mem)[at[Along(path, 3)]][path[3] := ZERO]]
    {
      var current := pageTable;
      PathFinds(mem, pageTable, at, path);
      var i := 0;
      while i < 4
        invariant i <= 3 && Along(path, i) in at && current == at[Along(path, i)]
        invariant mem == old(mem) && at == old(at) && owned == old(owned) && freePages == old(freePages) && Bits() == old(Bits())
        decreases 4 - i
      {
        var entry := mem[current][path[i]];
        if i == 3 {
          if entry.flags.present {
            ClearAndFree(current, path);
          }
          return;
        }
        if !entry.flags.present {
          MissingTable(mem, pageTable, at, path, i);
          return;
        }
        NextTable(mem, pageTable, at, path, i);
        current := PageOf(entry);
        i := i + 1;
      }
      assert false;
    }

    method ClearAndFree(current: nat, path: seq<nat>)
      requires Indices(path) && Valid() && Along(path, 3) in at && current == at[Along(path, 3)]
      requires Walk(mem, pageTable, path) == Some(mem[current][path[3]])
      modifies this, memoryBitmap
      ensures at == old(at) && TableTree(mem, pageTable, at)
      ensures SameElsewhere(old(mem), mem, pageTable, path) && Walk(mem, pageTable, path).None?
      ensures var page := PageOf(old(Walk(mem, pageTable, path)).value);
        && owned == old(owned) - {page} && freePages == old(freePages) + One(page < totalPages)
        && Bits() == BitsWithout(old(Bits()), totalPages, page)
        && (Valid() <==> page in old(owned) || page >= totalPages)
      ensures mem == old(mem)[current := old(mem)[current][path[3] := ZERO]]
    {
      var page := PageOf(mem[current][path[3]]);
      SetLast(mem, pageTable, at, path, ZERO);
      FreeingNamed(Bits(), totalPages, reserved, at.Values, owned, page);
      mem := mem[current := mem[current][path[3] := ZERO]];
      owned := owned - {page};
      FreePage(page);
    }

    /** Mapping and unmapping restores every translation and returns the page; only tables stay. */
    method MapThenUnmap(path: seq<nat>, flags: PageFlags) returns (r: MapResult)
      requires Indices(path) && Valid() && flags.present
      modifies this, memoryBitmap
      ensures Valid() && owned == old(owned) && Grown(old(at), at) && SameTranslations(old(mem), mem, pageTable)
      ensures freePages + |at| == old(freePages) + |old(at)|
      ensures r == Err(OutOfPages) <==> old(freePages) < 1 + old(TablesMissing(at, path))
      ensures r == Err(PageAlreadyExists) <==> old(freePages) > 0 && old(Walk(mem, pageTable, path)).Some?
    {
      ghost var page;
      r, page := MapPage(path, flags);
      if r.Ok? {
        ghost var mem1 := mem;
        assert owned - {page} == old(owned);
        LowPage(Bits(), totalPages, reserved, at.Values, owned, page);
        assert PageOf(Entry(flags, page)) == page;
        UnmapAndFreePage(path);
        Restored(old(mem), mem1, mem, pageTable, path);
      }
    }

    // ----- the same operations on virtual addresses -----

    /** Success adds exactly one translation; a failure adds none. */
    method MapTranslationAt(page: nat, va: nat, flags: PageFlags) returns (r: MapResult)
      requires Valid()
      modifies this, memoryBitmap
      ensures Valid() && owned == old(owned) && OtherPagesKept(old(mem), mem, pageTable, va)
      ensures r == Err(PageAlreadyExists) <==> old(Translate(mem, pageTable, va)).Some?
      ensures r.Err? ==> AllPagesKept(old(mem), mem, pageTable) && (r.error.OutOfPages? ==> freePages == 0)
      ensures r.Ok? && flags.present ==> Translate(mem, pageTable, va) == Some(WithFrame(flags, page))
      ensures r.Ok? && !flags.present ==> Translate(mem, pageTable, va).None?
      ensures freePages + |at| == old(freePages) + |old(at)|
      ensures r == Err(OutOfPages) <==> old(freePages) < old(TablesMissing(at, Path(va)))
      ensures Extended(old(mem), old(at), mem, at, Path(va)) && OthersKept(old(mem), mem, at.Values)
    {
      r := MapPageTranslation(page, Path(va), flags, {});
      OtherPages(old(mem), mem, pageTable, va);
      if r.Err? {
        AllPages(old(mem), mem, pageTable);
      }
    }

    /** Mapping a page and unmapping it keeps every translation and every owner; tables may remain. */
    method MapAndUnmapAt(va: nat, flags: PageFlags) returns (r: MapResult)
      requires Valid() && flags.present
      modifies this, memoryBitmap
      ensures Valid() && owned == old(owned) && AllPagesKept(old(mem), mem, pageTable)
      ensures freePages + |at| == old(freePages) + |old(at)| && |at| >= |old(at)|
      ensures r == Err(OutOfPages) <==> old(freePages) < 1 + old(TablesMissing(at, Path(va)))
      ensures r == Err(PageAlreadyExists) <==> old(freePages) > 0 && old(Translate(mem, pageTable, va)).Some?
    {
      r := MapThenUnmap(Path(va), flags);
      AllPages(old(mem), mem, pageTable);
      GrownSize(old(at), at);
    }

    /** Whether every address of the range is mapped with the wanted flags at all four levels. */
    method CheckFlags(start: nat, size: nat, wanted: PageFlags) returns (r: bool)
      requires Valid() && size > 0
      ensures r <==> forall va | start <= va < start + size :: Granted(mem, at, Path(va), wanted)
    {
      var numPages := (start + (size - 1)) / 0x1000 - start / 0x1000 + 1;
      for i := 0 to numPages
        invariant forall k | 0 <= k < i :: PageGranted(mem, at, start, k, wanted)
      {
        var va := start + i * 0x1000;
        var ok := CheckPage(Path(va), wanted);
        if !ok {
          PageInRange(mem, at, start, size, wanted, i);
          return false;
        }
      }
      AllInRange(mem, at, start, size, wanted, numPages);
      r := true;
    }

    method CheckPage(path: seq<nat>, wanted: PageFlags) returns (r: bool)
      requires Valid() && Indices(path)
      ensures r <==> Granted(mem, at, path, wanted)
    {
      var current := pageTable;
      for i := 0 to 4
        invariant i <= 3 ==> Along(path, i) in at && current == at[Along(path, i)]
        invariant forall k | 0 <= k < i :: EntryGrants(mem, at, path, k, wanted)
      {
        var entry := mem[current][path[i]];
        if !entry.flags.present || !Covers(entry.flags, wanted) {
          assert !EntryGrants(mem, at, path, i, wanted);
          return false;
        }
        if i < 3 {
          NextTable(mem, pageTable, at, path, i);
        }
        current := PageOf(entry);
      }
      r := true;
    }

    /** What was just mapped through new tables grants its own flags, and the check for them passes. */
    method MapAndCheckAt(page: nat, va: nat, flags: PageFlags) returns (r: MapResult, ok: bool)
      requires Valid() && flags.present && KernelFlags(flags) && Along(Path(va), 1) !in at
      modifies this, memoryBitmap
      ensures Valid() && (r.Ok? <==> old(freePages) >= 3) && ok == r.Ok?
    {
      r := MapNew(page, Path(va), flags);
      ok := false;
      if r.Ok? {
        ok := CheckFlags(va, 1, flags);
      }
    }

    method MapNew(page: nat, path: seq<nat>, flags: PageFlags) returns (r: MapResult)
      requires Indices(path) && Valid() && flags.present && KernelFlags(flags) && Along(path, 1) !in at
      modifies this, memoryBitmap
      ensures Valid() && (r.Ok? <==> old(freePages) >= 3)
      ensures r.Ok? ==> Granted(mem, at, path, flags)
    {
      assert TablesMissing(at, path) == 3 && Walk(mem, pageTable, path).None? by {
        NoneMissing(mem, pageTable, at, path);
      }
      r := MapPageTranslation(page, path, flags, {});
      if r.Ok? {
        NewPathGranted(old(mem), old(at), mem, pageTable, at, path, flags, page);
      }
    }
  }

  lemma NewPathGranted(m0: Memory, a0: TableMap, m1: Memory, root: nat, a1: TableMap, path: seq<nat>, flags: PageFlags, page: nat)
    requires TableTree(m0, root, a0) && TableTree(m1, root, a1) && Indices(path) && Extended(m0, a0, m1, a1, path)
    requires Along(path, 3) in a1 && Along(path, 1) !in a0 && flags.present && KernelFlags(flags)
    requires Walk(m1, root, path) == Some(WithFrame(flags, page))
    ensures Granted(m1, a1, path, flags)
  {
    PathFinds(m1, root, a1, path);
    MappedGrants(m0, a0, m1, root, a1, path, flags, m1[a1[Along(path, 3)]][path[3]]);
    NoneMissing(m0, root, a0, path);
    assert Along(path, 2).up == Along(path, 1) && Along(path, 3).up == Along(path, 2);
  }

  ghost predicate PageGranted(mem: Memory, at: TableMap, start: nat, k: nat, wanted: PageFlags)
    requires Held(mem, at)
  {
    Granted(mem, at, Path(start + k * 0x1000), wanted)
  }

  lemma SamePath(va: nat, vb: nat)
    requires va / 0x1000 == vb / 0x1000
    ensures Path(va) == Path(vb)
  {
    PathIsPage(va, vb);
  }

  /** Each page that is checked holds an address of the range. */
  lemma PageInRange(mem: Memory, at: TableMap, start: nat, size: nat, wanted: PageFlags, i: nat)
    requires Held(mem, at) && size > 0 && start / 0x1000 + i <= (start + (size - 1)) / 0x1000
    requires !PageGranted(mem, at, start, i, wanted)
    ensures exists va :: start <= va < start + size && !Granted(mem, at, Path(va), wanted)
  {
    var va := start + i * 0x1000;
    var last := start + (size - 1);
    assert va / 0x1000 == start / 0x1000 + i;
    if va > last {
      assert va / 0x1000 == last / 0x1000;
      SamePath(va, last);
    }
  }

  /** Each address of the range lies in a page that is checked. */
  lemma AllInRange(mem: Memory, at: TableMap, start: nat, size: nat, wanted: PageFlags, n: nat)
    requires Held(mem, at) && size > 0 && n == (start + (size - 1)) / 0x1000 - start / 0x1000 + 1
    requires forall k | 0 <= k < n :: PageGranted(mem, at, start, k, wanted)
    ensures forall va | start <= va < start + size :: Granted(mem, at, Path(va), wanted)
  {
    forall va | start <= va < start + size
      ensures Granted(mem, at, Path(va), wanted)
    {
      var k := va / 0x1000 - start / 0x1000;
      assert (start + k * 0x1000) / 0x1000 == va / 0x1000;
      assert PageGranted(mem, at, start, k, wanted);
      SamePath(va, start + k * 0x1000);
    }
  }

  lemma LowPage(bits: seq<bool>, total: nat, reserved: set<nat>, tables: set<nat>, owned: set<nat>, page: nat)
    requires Accounts(bits, total, reserved, tables, owned, {}) && page in owned
    ensures page < LOW_FRAMES
  {
  }

  lemma FrameKept(flags: PageFlags, page: nat)
    requires page < LOW_FRAMES
    ensures WithFrame(flags, page) == Entry(flags, page)
  {
  }

  lemma SameTwice(m0: Memory, m1: Memory, m2: Memory, root: nat)
    requires SameTranslations(m0, m1, root) && SameTranslations(m1, m2, root)
    ensures SameTranslations(m0, m2, root)
  {
    forall path | Indices(path)
      ensures Walk(m2, root, path) == Walk(m0, root, path)
    {
      assert Walk(m1, root, path) == Walk(m0, root, path);
    }
  }

  lemma SameThenElsewhere(m0: Memory, m1: Memory, m2: Memory, root: nat, path: seq<nat>)
    requires SameTranslations(m0, m1, root) && SameElsewhere(m1, m2, root, path) && Indices(path)
    ensures SameElsewhere(m0, m2, root, path) && Walk(m0, root, path) == Walk(m1, root, path)
  {
    forall other | Indices(other) && other != path
      ensures Walk(m2, root, other) == Walk(m0, root, other)
    {
      assert Walk(m1, root, other) == Walk(m0, root, other);
    }
  }

  /** Every address outside the page of `va` keeps its translation. */
  ghost predicate OtherPagesKept(m0: Memory, m1: Memory, root: nat, va: nat) {
    forall vb | VirtualPage(vb) != VirtualPage(va) :: Translate(m1, root, vb) == Translate(m0, root, vb)
  }

  ghost predicate AllPagesKept(m0: Memory, m1: Memory, root: nat) {
    forall vb :: Translate(m1, root, vb) == Translate(m0, root, vb)
  }

  lemma OtherPages(m0: Memory, m1: Memory, root: nat, va: nat)
    requires SameElsewhere(m0, m1, root, Path(va))
    ensures OtherPagesKept(m0, m1, root, va)
  {
    forall vb | VirtualPage(vb) != VirtualPage(va)
      ensures Translate(m1, root, vb) == Translate(m0, root, vb)
    {
      PathIsPage(va, vb);
      assert Indices(Path(vb));
    }
  }

  lemma AllPages(m0: Memory, m1: Memory, root: nat)
    requires SameTranslations(m0, m1, root)
    ensures AllPagesKept(m0, m1, root)
  {
    forall vb
      ensures Translate(m1, root, vb) == Translate(m0, root, vb)
    {
      assert Indices(Path(vb));
    }
  }

  lemma Restored(m0: Memory, m1: Memory, m2: Memory, root: nat, path: seq<nat>)
    requires SameElsewhere(m0, m1, root, path) && SameElsewhere(m1, m2, root, path)
    requires Walk(m0, root, path) == Walk(m2, root, path)
    ensures SameTranslations(m0, m2, root)
  {
    forall other | Indices(other)
      ensures Walk(m2, root, other) == Walk(m0, root, other)
    {
      if other != path {
        assert Walk(m1, root, other) == Walk(m0, root, other);
      }
    }
  }

  /** The first byte that is not full holds the first free page. */
  lemma FirstInRow(bits: seq<bool>, lo: nat, row: seq<bool>, k: nat)
    requires lo + 8 <= |bits| && bits[lo..lo + 8] == row && FirstUnset(row, k) && forall p | 0 <= p < lo :: bits[p]
    ensures !bits[lo + k] && forall p | 0 <= p < lo + k :: bits[p]
  {
    RowBit(bits, lo, row, k);
    forall p | lo <= p < lo + k
      ensures bits[p]
    {
      RowBit(bits, lo, row, p - lo);
    }
  }

  lemma AllInRow(bits: seq<bool>, lo: nat, row: seq<bool>)
    requires lo + 8 <= |bits| && bits[lo..lo + 8] == row && AllSet(row) && forall p | 0 <= p < lo :: bits[p]
    ensures forall p | 0 <= p < lo + 8 :: bits[p]
  {
    forall p | lo <= p < lo + 8
      ensures bits[p]
    {
      RowBit(bits, lo, row, p - lo);
    }
  }

  /** Tables are added and none is moved. */
  ghost predicate Grown(at: TableMap, at': TableMap) {
    forall p | p in at :: p in at' && at'[p] == at[p]
  }

  lemma GrownSize(at: TableMap, at': TableMap)
    requires Grown(at, at')
    ensures |at'| >= |at|
  {
    assert at.Keys <= at'.Keys;
    SubsetSize(at.Keys, at'.Keys);
    assert |at.Keys| == |at| && |at'.Keys| == |at'|;
  }

  lemma {:induction false} SubsetSize<T>(a: set<T>, b: set<T>)
    requires a <= b
    ensures |a| <= |b|
  {
    if a != {} {
      var x :| x in a;
      SubsetSize(a - {x}, b - {x});
    }
  }

  lemma TableInHand(bits: seq<bool>, total: nat, reserved: set<nat>, at: TableMap, owned: set<nat>, inHand: set<nat>,
                    place: Place, page: nat)
    requires Accounts(bits, total, reserved, at.Values, owned, inHand + {page}) && place !in at && page !in inHand
    ensures Accounts(bits, total, reserved, at[place := page].Values, owned, inHand)
  {
    assert at[place := page].Values == at.Values + {page} by {
      forall v | v in at.Values
        ensures v in at[place := page].Values
      {
        var p :| p in at && at[p] == v;
        assert at[place := page][p] == v;
      }
      assert at[place := page][place] == page;
    }
  }

  lemma SameExtends(mem: Memory, at: TableMap, path: seq<nat>)
    requires Held(mem, at) && Indices(path)
    ensures Extended(mem, at, mem, at, path)
  {
  }

  /** Clearing a page that is no table leaves the tables alone. */
  lemma TakenExtends(mem: Memory, at: TableMap, path: seq<nat>, page: nat)
    requires Held(mem, at) && Indices(path) && page !in at.Values
    ensures Extended(mem, at, mem[page := BLANK], at, path)
  {
    FreshTable(at, page);
  }

  lemma LastExtends(mem: Memory, root: nat, at: TableMap, path: seq<nat>, e: Entry)
    requires TableTree(mem, root, at) && Indices(path) && Along(path, 3) in at
    ensures var page := at[Along(path, 3)]; Extended(mem, at, mem[page := mem[page][path[3] := e]], at, path)
    ensures Extended(mem, at, mem, at, path)
  {
    var page := at[Along(path, 3)];
    var m1 := mem[page := mem[page][path[3] := e]];
    AlongLevel(path, 3);
    SameExtends(mem, at, path);
    forall p, i: nat | p in at && i < 512
      ensures EntryExtended(mem, at, m1, at, path, p, i)
    {
      assert at[p] == page ==> p == Along(path, 3);
    }
  }

  lemma AbsentLink(mem: Memory, root: nat, at: TableMap, path: seq<nat>, i: nat)
    requires TableTree(mem, root, at) && Indices(path) && i < 3 && Along(path, i) in at
    requires !mem[at[Along(path, i)]][path[i]].flags.present
    ensures Along(path, i + 1) !in at && TablesMissing(at, path) > 0
  {
    AlongLevel(path, i);
    assert Links(mem, at, Along(path, i), path[i]);
    if Along(path, 3) in at {
      AlongClosed(at, path, i + 1, 3);
    }
  }

  /** Taking a page and linking it in, together. */
  lemma TableMade(m0: Memory, m1: Memory, m2: Memory, root: nat, a1: TableMap, a2: TableMap, path: seq<nat>, page: nat, current: nat)
    requires Indices(path) && Extended(m0, a1, m1, a1, path) && Extended(m1, a1, m2, a2, path) && Closed(a1)
    requires SameTranslations(m0, m1, root) && SameTranslations(m1, m2, root)
    requires OthersKept(m0, m1, {page}) && OthersKept(m1, m2, {current}) && page in a2.Values && current in a2.Values
    ensures SameTranslations(m0, m2, root) && Extended(m0, a1, m2, a2, path) && OthersKept(m0, m2, a2.Values)
  {
    SameTwice(m0, m1, m2, root);
    ExtendedTwice(m0, a1, m1, a1, m2, a2, path);
  }

  lemma GrownValues(a1: TableMap, a2: TableMap)
    requires Grown(a1, a2)
    ensures a1.Values <= a2.Values
  {
    forall q | q in a1.Values
      ensures q in a2.Values
    {
      var p :| p in a1 && a1[p] == q;
      assert a2[p] == q;
    }
  }

  lemma OthersTwice(m0: Memory, m1: Memory, a1: TableMap, m2: Memory, a2: TableMap)
    requires OthersKept(m0, m1, a1.Values) && OthersKept(m1, m2, a2.Values) && Grown(a1, a2)
    ensures OthersKept(m0, m2, a2.Values)
  {
    GrownValues(a1, a2);
  }

  lemma NextTable(mem: Memory, root: nat, at: TableMap, path: seq<nat>, i: nat)
    requires TableTree(mem, root, at) && Indices(path) && i < 3 && Along(path, i) in at
    requires mem[at[Along(path, i)]][path[i]].flags.present
    ensures Along(path, i + 1) in at && PageOf(mem[at[Along(path, i)]][path[i]]) == at[Along(path, i + 1)]
  {
    AlongLevel(path, i);
    assert Links(mem, at, Along(path, i), path[i]);
    assert Along(path, i + 1) == Behind(Along(path, i), path[i]);
  }
}
