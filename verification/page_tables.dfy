/**
 * Four levels of page tables in physical memory. A page is named by its number; an entry holds the
 * 40-bit page field and the flags of one table entry.
 */
module PageTables {
  import opened Wrappers
  import opened Paging

  datatype Entry = Entry(flags: PageFlags, frame: nat)

  const NO_FLAGS: PageFlags := PageFlags(false, false, false, false, false, false, false, false, false, false)
  const READ_WRITE: PageFlags := PageFlags(true, true, false, false, false, false, false, false, false, true)
  const ZERO: Entry := Entry(NO_FLAGS, 0)
  const BLANK: seq<Entry> := seq(512, _ => ZERO)

  const FRAMES: nat := 0x100_0000_0000
  const LOW_FRAMES: nat := 0x80_0000_0000

  /** Physical memory, each page read as a table of entries. */
  type Memory = map<nat, seq<Entry>>

  /** Storing a page number keeps 40 bits of it. */
  function WithFrame(flags: PageFlags, page: nat): Entry {
    Entry(flags, page % FRAMES)
  }

  /** The page that an entry refers to; the top bit of the field is extended. */
  function PageOf(e: Entry): nat {
    if e.frame < LOW_FRAMES then e.frame else e.frame + 0xF_FF00_0000_0000
  }

  // ----- virtual addresses -----

  const SIZES: seq<nat> := [0x80_0000_0000, 0x4000_0000, 0x20_0000, 0x1000]

  /** The table index at level `i`. */
  function Index(va: nat, i: nat): (r: nat)
    requires i < 4
    ensures r < 512
  {
    va / SIZES[i] % 512
  }

  /** The 48-bit page number of an address; the bits above are ignored. */
  function VirtualPage(va: nat): nat {
    va / 0x1000 % 0x10_0000_0000
  }

  /** A place in the tree of tables: the root, or behind one entry of the table at another place. */
  datatype Place = Root | Behind(up: Place, index: nat)

  ghost function Level(p: Place): nat {
    if p.Root? then 0 else Level(p.up) + 1
  }

  /** The four indices of an address. */
  function Path(va: nat): seq<nat> {
    [Index(va, 0), Index(va, 1), Index(va, 2), Index(va, 3)]
  }

  ghost predicate Indices(path: seq<nat>) {
    |path| == 4 && forall i | 0 <= i < 4 :: path[i] < 512
  }

  /** The place where a walk stands after `k` steps. */
  ghost function Along(path: seq<nat>, k: nat): Place
    requires Indices(path) && k <= 3
  {
    if k == 0 then Root else Behind(Along(path, k - 1), path[k - 1])
  }

  lemma {:induction false} AlongLevel(path: seq<nat>, k: nat)
    requires Indices(path) && k <= 3
    ensures Level(Along(path, k)) == k
  {
    if k > 0 {
      AlongLevel(path, k - 1);
    }
  }

  lemma {:induction false} SameAlong(path: seq<nat>, other: seq<nat>, k: nat)
    requires Indices(path) && Indices(other) && k <= 3 && Along(path, k) == Along(other, k)
    ensures forall i | 0 <= i < k :: path[i] == other[i]
  {
    if k > 0 {
      SameAlong(path, other, k - 1);
    }
  }

  /** Two addresses have the same four indices if and only if they have the same 48-bit page number. */
  lemma PathIsPage(va: nat, vb: nat)
    ensures Path(va) == Path(vb) <==> VirtualPage(va) == VirtualPage(vb)
  {
    PageDigits(va);
    PageDigits(vb);
    var a, b := Path(va), Path(vb);
    assert a == b ==> a[0] == b[0] && a[1] == b[1] && a[2] == b[2] && a[3] == b[3];
    SameDigits(Index(va, 0), Index(va, 1), Index(va, 2), Index(va, 3), Index(vb, 0), Index(vb, 1), Index(vb, 2), Index(vb, 3));
  }

  lemma SameDigits(a0: nat, a1: nat, a2: nat, a3: nat, b0: nat, b1: nat, b2: nat, b3: nat)
    requires a0 < 512 && a1 < 512 && a2 < 512 && a3 < 512 && b0 < 512 && b1 < 512 && b2 < 512 && b3 < 512
    ensures ((a0 * 512 + a1) * 512 + a2) * 512 + a3 == ((b0 * 512 + b1) * 512 + b2) * 512 + b3
      <==> a0 == b0 && a1 == b1 && a2 == b2 && a3 == b3
  {
  }

  lemma PageDigits(va: nat)
    ensures VirtualPage(va) == ((Index(va, 0) * 512 + Index(va, 1)) * 512 + Index(va, 2)) * 512 + Index(va, 3)
  {
    var v := va / 0x1000;
    assert va / 0x20_0000 == v / 512 && va / 0x4000_0000 == v / 512 / 512 && va / 0x80_0000_0000 == v / 512 / 512 / 512;
    var a, b, c := v / 512, v / 512 / 512, v / 512 / 512 / 512;
    assert v == 512 * a + v % 512 && a == 512 * b + a % 512 && b == 512 * c + b % 512 && c == 512 * (c / 512) + c % 512;
  }

  // ----- the walk -----

  /** What the walk along the indices `path` finds, from table `page` on. */
  function Walk(mem: Memory, page: nat, path: seq<nat>): Option<Entry>
    decreases |path|
  {
    if path == [] || page !in mem || |mem[page]| != 512 || path[0] >= 512 || !mem[page][path[0]].flags.present then None
    else if |path| == 1 then Some(mem[page][path[0]])
    else Walk(mem, PageOf(mem[page][path[0]]), path[1..])
  }

  function Translate(mem: Memory, root: nat, va: nat): Option<Entry> {
    Walk(mem, root, Path(va))
  }

  // ----- a tree of tables -----

  /** Which table stands at which place. */
  type TableMap = map<Place, nat>

  ghost predicate Closed(at: TableMap) {
    && Root in at
    && forall p | p in at :: Level(p) <= 3 && (p.Behind? ==> p.up in at && p.index < 512)
  }

  ghost predicate Injective(at: TableMap) {
    forall p, q | p in at && q in at && at[p] == at[q] :: p == q
  }

  /** The page of a table holds 512 entries. */
  ghost predicate Held(mem: Memory, at: TableMap) {
    forall p | p in at :: at[p] in mem && |mem[at[p]]| == 512 && at[p] < LOW_FRAMES
  }

  /** Entry `i` of the table at `p` is the link to the table behind it, if there is one. */
  ghost predicate Links(mem: Memory, at: TableMap, p: Place, i: nat)
    requires p in at && Held(mem, at) && i < 512
  {
    && (mem[at[p]][i].flags.present <==> Behind(p, i) in at)
    && (Behind(p, i) in at ==> !mem[at[p]][i].flags.hugePage && mem[at[p]][i].frame == at[Behind(p, i)])
  }

  /** The tables form a tree: every table is reached along one path, and no table stands in two places. */
  ghost predicate TableTree(mem: Memory, root: nat, at: TableMap) {
    && Closed(at) && Injective(at) && at[Root] == root && Held(mem, at)
    && forall p, i: nat | p in at && Level(p) < 3 && i < 512 :: Links(mem, at, p, i)
  }

  /** Entry `i` of the table at `p`, if both are there. */
  ghost function EntryAt(mem: Memory, at: TableMap, p: Place, i: nat): Option<Entry>
    requires Held(mem, at) && i < 512
  {
    if p in at && mem[at[p]][i].flags.present then Some(mem[at[p]][i]) else None
  }

  lemma {:induction false} AlongClosed(at: TableMap, path: seq<nat>, j: nat, k: nat)
    requires Closed(at) && Indices(path) && j <= k <= 3 && Along(path, k) in at
    ensures Along(path, j) in at
    decreases k
  {
    if j < k {
      AlongClosed(at, path, j, k - 1);
    }
  }

  /** The walk ends at the entry that the tree has for the address. */
  lemma {:induction false} WalkFinds(mem: Memory, root: nat, at: TableMap, path: seq<nat>, k: nat)
    requires TableTree(mem, root, at) && Indices(path) && k <= 3 && Along(path, k) in at
    ensures Walk(mem, at[Along(path, k)], path[k..]) == EntryAt(mem, at, Along(path, 3), path[3])
    decreases 4 - k
  {
    assert path[k..][0] == path[k];
    if k < 3 {
      AlongLevel(path, k);
      assert path[k..][1..] == path[k + 1..];
      assert Links(mem, at, Along(path, k), path[k]);
      assert Along(path, k + 1) == Behind(Along(path, k), path[k]);
      if Along(path, k + 1) in at {
        WalkFinds(mem, root, at, path, k + 1);
      } else if Along(path, 3) in at {
        AlongClosed(at, path, k + 1, 3);
        assert false;
      }
    }
  }

  lemma PathFinds(mem: Memory, root: nat, at: TableMap, path: seq<nat>)
    requires TableTree(mem, root, at) && Indices(path)
    ensures Walk(mem, root, path) == EntryAt(mem, at, Along(path, 3), path[3])
  {
    WalkFinds(mem, root, at, path, 0);
    assert path[0..] == path;
  }

  // ----- changes to the tree -----

  /** Every address keeps its translation. */
  ghost predicate SameTranslations(mem: Memory, mem': Memory, root: nat) {
    forall path | Indices(path) :: Walk(mem', root, path) == Walk(mem, root, path)
  }

  /** Every address with other indices keeps its translation. */
  ghost predicate SameElsewhere(mem: Memory, mem': Memory, root: nat, path: seq<nat>) {
    forall other | Indices(other) && other != path :: Walk(mem', root, other) == Walk(mem, root, other)
  }

  /** A page that is no table can be rewritten. */
  lemma OutsideTree(mem: Memory, root: nat, at: TableMap, page: nat, content: seq<Entry>)
    requires TableTree(mem, root, at) && page !in at.Values
    ensures TableTree(mem[page := content], root, at)
    ensures SameTranslations(mem, mem[page := content], root)
  {
    var mem' := mem[page := content];
    forall p | p in at
      ensures mem'[at[p]] == mem[at[p]]
    {
      assert at[p] in at.Values;
    }
    forall p, i: nat | p in at && Level(p) < 3 && i < 512
      ensures Links(mem', at, p, i)
    {
      assert Links(mem, at, p, i);
    }
    forall path | Indices(path)
      ensures Walk(mem', root, path) == Walk(mem, root, path)
    {
      PathFinds(mem, root, at, path);
      PathFinds(mem', root, at, path);
    }
  }

  ghost function WithTable(mem: Memory, at: TableMap, up: Place, i: nat, page: nat): Memory
    requires Held(mem, at) && up in at && i < 512
  {
    mem[at[up] := mem[at[up]][i := WithFrame(READ_WRITE, page)]]
  }

  /** A blank page becomes the table behind an entry that was not present. */
  lemma AddTable(mem: Memory, root: nat, at: TableMap, up: Place, i: nat, page: nat)
    requires TableTree(mem, root, at) && up in at && Level(up) < 3 && i < 512 && !mem[at[up]][i].flags.present
    requires page !in at.Values && page < LOW_FRAMES && page in mem && mem[page] == BLANK
    ensures Behind(up, i) !in at && TableTree(WithTable(mem, at, up, i, page), root, at[Behind(up, i) := page])
  {
    var mem', at' := WithTable(mem, at, up, i, page), at[Behind(up, i) := page];
    assert Links(mem, at, up, i);
    AddedPlace(at, up, i, page);
    assert Held(mem', at') by {
      FreshTable(at, page);
    }
    forall p, j: nat | p in at' && Level(p) < 3 && j < 512
      ensures Links(mem', at', p, j)
    {
      AddedLink(mem, root, at, up, i, page, p, j);
    }
  }

  lemma AddedPlace(at: TableMap, up: Place, i: nat, page: nat)
    requires Closed(at) && Injective(at) && up in at && Level(up) < 3 && i < 512 && page !in at.Values
    ensures Closed(at[Behind(up, i) := page]) && (Behind(up, i) !in at ==> Injective(at[Behind(up, i) := page]))
  {
    FreshTable(at, page);
  }

  lemma FreshTable(at: TableMap, page: nat)
    requires page !in at.Values
    ensures forall p | p in at :: at[p] != page
  {
    forall p | p in at
      ensures at[p] != page
    {
      assert at[p] in at.Values;
    }
  }

  lemma AddedLink(mem: Memory, root: nat, at: TableMap, up: Place, i: nat, page: nat, p: Place, j: nat)
    requires TableTree(mem, root, at) && up in at && Level(up) < 3 && i < 512 && Behind(up, i) !in at
    requires page !in at.Values && page < LOW_FRAMES && page in mem && mem[page] == BLANK
    requires p in at[Behind(up, i) := page] && Level(p) < 3 && j < 512
    requires Held(WithTable(mem, at, up, i, page), at[Behind(up, i) := page])
    ensures Links(WithTable(mem, at, up, i, page), at[Behind(up, i) := page], p, j)
  {
    FreshTable(at, page);
    if p == Behind(up, i) {
      assert Behind(p, j) !in at;
    } else {
      assert Links(mem, at, p, j);
      assert at[p] == at[up] ==> p == up;
    }
  }

  lemma AddTableKeeps(mem: Memory, root: nat, at: TableMap, up: Place, i: nat, page: nat)
    requires TableTree(mem, root, at) && up in at && Level(up) < 3 && i < 512 && !mem[at[up]][i].flags.present
    requires page !in at.Values && page < LOW_FRAMES && page in mem && mem[page] == BLANK
    ensures SameTranslations(mem, WithTable(mem, at, up, i, page), root)
  {
    var mem', at' := WithTable(mem, at, up, i, page), at[Behind(up, i) := page];
    AddTable(mem, root, at, up, i, page);
    assert at[up] in at.Values;
    forall path | Indices(path)
      ensures Walk(mem', root, path) == Walk(mem, root, path)
    {
      PathFinds(mem, root, at, path);
      PathFinds(mem', root, at', path);
      AlongLevel(path, 3);
      if Along(path, 3) in at {
        assert at[Along(path, 3)] != at[up];
      }
    }
  }

  /** Where a table is missing on the way, there is no translation. */
  lemma MissingTable(mem: Memory, root: nat, at: TableMap, path: seq<nat>, k: nat)
    requires TableTree(mem, root, at) && Indices(path) && k < 3 && Along(path, k) in at
    requires !mem[at[Along(path, k)]][path[k]].flags.present
    ensures Walk(mem, root, path).None?
  {
    AlongLevel(path, k);
    assert Links(mem, at, Along(path, k), path[k]);
    PathFinds(mem, root, at, path);
    if Along(path, 3) in at {
      AlongClosed(at, path, k + 1, 3);
      assert false;
    }
  }

  /** The last entry for one address is rewritten; every other page keeps its translation. */
  lemma SetLast(mem: Memory, root: nat, at: TableMap, path: seq<nat>, e: Entry)
    requires TableTree(mem, root, at) && Indices(path) && Along(path, 3) in at
    ensures var page := at[Along(path, 3)];
      var mem' := mem[page := mem[page][path[3] := e]];
      && TableTree(mem', root, at) && SameElsewhere(mem, mem', root, path)
      && Walk(mem', root, path) == if e.flags.present then Some(e) else None
  {
    var place, i := Along(path, 3), path[3];
    var page := at[place];
    var mem' := mem[page := mem[page][i := e]];
    AlongLevel(path, 3);
    forall p, j: nat | p in at && Level(p) < 3 && j < 512
      ensures Links(mem', at, p, j)
    {
      assert Links(mem, at, p, j);
      assert at[p] == page ==> p == place;
    }
    PathFinds(mem', root, at, path);
    forall other | Indices(other) && other != path
      ensures Walk(mem', root, other) == Walk(mem, root, other)
    {
      if Along(other, 3) == Along(path, 3) {
        SameAlong(path, other, 3);
      }
      PathFinds(mem, root, at, other);
      PathFinds(mem', root, at, other);
      if Along(other, 3) in at {
        assert at[Along(other, 3)] == page ==> Along(other, 3) == place;
      }
    }
  }

  // ----- what mapping does to the tables -----

  /** Entry `i` of the table at `p` is one that the walk along `path` reads. */
  ghost predicate OnPath(path: seq<nat>, p: Place, i: nat)
    requires Indices(path)
  {
    Level(p) <= 3 && p == Along(path, Level(p)) && i == path[Level(p)]
  }

  /** A link to a new table: present, writable, not executable, for the kernel alone. */
  ghost predicate NewLink(e: Entry, table: nat) {
    && e.frame == table && e.flags.present && e.flags.writable && e.flags.noExecute
    && !e.flags.userAccessable && !e.flags.writeThroughCachingEnabled && !e.flags.cacheDisabled && !e.flags.accessed
    && !e.flags.dirty && !e.flags.hugePage && !e.flags.global
  }

  ghost predicate IsZero(e: Entry) {
    && e.frame == 0 && !e.flags.present && !e.flags.writable && !e.flags.noExecute
    && !e.flags.userAccessable && !e.flags.writeThroughCachingEnabled && !e.flags.cacheDisabled && !e.flags.accessed
    && !e.flags.dirty && !e.flags.hugePage && !e.flags.global
  }

  lemma BlankIsZero()
    ensures |BLANK| == 512 && IsZero(ZERO) && forall i | 0 <= i < 512 :: IsZero(BLANK[i])
  {
  }

  /** The entry is what it was; in a table that was not there it is zero. */
  ghost predicate EntryKept(m0: Memory, a0: TableMap, m1: Memory, a1: TableMap, p: Place, i: nat)
    requires Held(m0, a0) && Held(m1, a1) && p in a1 && i < 512
  {
    if p in a0 then m1[a1[p]][i] == m0[a0[p]][i] else IsZero(m1[a1[p]][i])
  }

  /** Links on the path to tables that were not there are new links; the last entry is left open. */
  ghost predicate EntryExtended(m0: Memory, a0: TableMap, m1: Memory, a1: TableMap, path: seq<nat>, p: Place, i: nat)
    requires Held(m0, a0) && Held(m1, a1) && Indices(path) && p in a1 && i < 512
  {
    if OnPath(path, p, i) && Level(p) == 3 then true
    else if OnPath(path, p, i) && Behind(p, i) in a1 && Behind(p, i) !in a0 then NewLink(m1[a1[p]][i], a1[Behind(p, i)])
    else EntryKept(m0, a0, m1, a1, p, i)
  }

  /** Nothing in the tables changes but what a mapping along `path` has to change. */
  ghost predicate Extended(m0: Memory, a0: TableMap, m1: Memory, a1: TableMap, path: seq<nat>)
    requires Indices(path)
  {
    && Held(m0, a0) && Held(m1, a1) && (forall p | p in a0 :: p in a1 && a1[p] == a0[p])
    && forall p, i: nat | p in a1 && i < 512 :: EntryExtended(m0, a0, m1, a1, path, p, i)
  }

  lemma ExtendedTwice(m0: Memory, a0: TableMap, m1: Memory, a1: TableMap, m2: Memory, a2: TableMap, path: seq<nat>)
    requires Indices(path) && Extended(m0, a0, m1, a1, path) && Extended(m1, a1, m2, a2, path)
    requires Closed(a0) && Closed(a1)
    ensures Extended(m0, a0, m2, a2, path)
  {
    forall p, i: nat | p in a2 && i < 512
      ensures EntryExtended(m0, a0, m2, a2, path, p, i)
    {
      assert EntryExtended(m1, a1, m2, a2, path, p, i);
      if p in a1 {
        assert EntryExtended(m0, a0, m1, a1, path, p, i);
      }
    }
  }

  /** Pages that are no tables are not touched. */
  ghost predicate OthersKept(m0: Memory, m1: Memory, tables: set<nat>) {
    forall q | q in m0 && q !in tables :: q in m1 && m1[q] == m0[q]
  }

  lemma LinkExtends(mem: Memory, root: nat, at: TableMap, path: seq<nat>, k: nat, page: nat)
    requires TableTree(mem, root, at) && Indices(path) && k < 3 && Along(path, k) in at && Behind(Along(path, k), path[k]) !in at
    requires page !in at.Values && page < LOW_FRAMES && page in mem && mem[page] == BLANK
    requires TableTree(WithTable(mem, at, Along(path, k), path[k], page), root, at[Along(path, k + 1) := page])
    ensures Extended(mem, at, WithTable(mem, at, Along(path, k), path[k], page), at[Along(path, k + 1) := page], path)
  {
    var up, m1, a1 := Along(path, k), WithTable(mem, at, Along(path, k), path[k], page), at[Along(path, k + 1) := page];
    AlongLevel(path, k);
    FreshTable(at, page);
    BlankIsZero();
    forall p, i: nat | p in a1 && i < 512
      ensures EntryExtended(mem, at, m1, a1, path, p, i)
    {
      if p in at {
        assert at[p] == at[up] ==> p == up;
      } else {
        assert p == Along(path, k + 1) && Behind(p, i) !in a1;
      }
    }
  }

  // ----- tables that are missing on a path -----

  /** How many tables have to be created before the last entry for `path` can be written. */
  ghost function TablesMissing(at: TableMap, path: seq<nat>): nat
    requires Indices(path)
  {
    if Along(path, 1) !in at then 3 else if Along(path, 2) !in at then 2 else if Along(path, 3) !in at then 1 else 0
  }

  lemma OneTableMore(at: TableMap, path: seq<nat>, k: nat, page: nat)
    requires Closed(at) && Indices(path) && k < 3 && Along(path, k) in at && Along(path, k + 1) !in at
    ensures TablesMissing(at[Along(path, k + 1) := page], path) == TablesMissing(at, path) - 1
  {
    AlongLevel(path, 1);
    AlongLevel(path, 2);
    AlongLevel(path, 3);
    assert Along(path, 3).up == Along(path, 2) && Along(path, 2).up == Along(path, 1);
  }

  /** A translation needs all its tables. */
  lemma NoneMissing(mem: Memory, root: nat, at: TableMap, path: seq<nat>)
    requires TableTree(mem, root, at) && Indices(path)
    ensures TablesMissing(at, path) == 0 <==> Along(path, 3) in at
    ensures Walk(mem, root, path).Some? ==> TablesMissing(at, path) == 0
  {
    PathFinds(mem, root, at, path);
    if Along(path, 3) in at {
      AlongClosed(at, path, 1, 3);
      AlongClosed(at, path, 2, 3);
    }
  }

  // ----- rights along a path -----

  /** The entry that the walk reads at level `k` is there, present, and has all wanted flags. */
  ghost predicate EntryGrants(mem: Memory, at: TableMap, path: seq<nat>, k: nat, wanted: PageFlags)
    requires Held(mem, at) && Indices(path) && k < 4
  {
    && Along(path, k) in at && mem[at[Along(path, k)]][path[k]].flags.present
    && Covers(mem[at[Along(path, k)]][path[k]].flags, wanted)
  }

  /** So it is at all four levels. */
  ghost predicate Granted(mem: Memory, at: TableMap, path: seq<nat>, wanted: PageFlags)
    requires Held(mem, at) && Indices(path)
  {
    forall k | 0 <= k < 4 :: EntryGrants(mem, at, path, k, wanted)
  }

  /** The only flags that a link to a new table has. */
  ghost predicate KernelFlags(f: PageFlags) {
    && !f.userAccessable && !f.writeThroughCachingEnabled && !f.cacheDisabled && !f.accessed && !f.dirty && !f.hugePage && !f.global
  }

  /** An upper entry grants the flags already, or will when a new table is linked in there. */
  ghost predicate LinkGrants(mem: Memory, at: TableMap, path: seq<nat>, k: nat, wanted: PageFlags)
    requires Held(mem, at) && Indices(path) && k < 3
  {
    if Along(path, k + 1) in at then EntryGrants(mem, at, path, k, wanted) else KernelFlags(wanted)
  }

  /**
   * After a mapping the wanted flags are granted if and only if the new entry has them, and each upper
   * entry had them before or is a link to a new table and no more than present, writable and no-execute
   * is wanted.
   */
  lemma MappedGrants(m0: Memory, a0: TableMap, m1: Memory, root: nat, a1: TableMap, path: seq<nat>, wanted: PageFlags, e: Entry)
    requires TableTree(m0, root, a0) && TableTree(m1, root, a1) && Indices(path) && Extended(m0, a0, m1, a1, path)
    requires Along(path, 3) in a1 && m1[a1[Along(path, 3)]][path[3]] == e
    ensures Granted(m1, a1, path, wanted) <==>
      && e.flags.present && Covers(e.flags, wanted)
      && forall k | 0 <= k < 3 :: LinkGrants(m0, a0, path, k, wanted)
  {
    forall k | 0 <= k < 3
      ensures EntryGrants(m1, a1, path, k, wanted) <==> LinkGrants(m0, a0, path, k, wanted)
    {
      UpperGrants(m0, a0, m1, root, a1, path, k, wanted);
    }
    assert EntryGrants(m1, a1, path, 3, wanted) <==> e.flags.present && Covers(e.flags, wanted);
  }

  lemma UpperGrants(m0: Memory, a0: TableMap, m1: Memory, root: nat, a1: TableMap, path: seq<nat>, k: nat, wanted: PageFlags)
    requires TableTree(m0, root, a0) && TableTree(m1, root, a1) && Indices(path) && Extended(m0, a0, m1, a1, path)
    requires Along(path, 3) in a1 && k < 3
    ensures EntryGrants(m1, a1, path, k, wanted) <==> LinkGrants(m0, a0, path, k, wanted)
  {
    AlongClosed(a1, path, k, 3);
    AlongClosed(a1, path, k + 1, 3);
    AlongLevel(path, k);
    var p := Along(path, k);
    assert EntryExtended(m0, a0, m1, a1, path, p, path[k]);
  }
}
