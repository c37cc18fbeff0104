/** What an insertion does to leaves, areas and balance, apart from the pointers. */
module VmaInsert {
  import opened Wrappers
  import opened VmaNodes
  import opened VmaShape
  import opened VmaBalance
  import opened VmaGaps
  import opened VmaLayout

  /** The arena is exactly one ordered, balanced tree with exact gap data. */
  ghost predicate Sound(s: Store, root: Ptr, w: Tree) {
    Zip(s, root, Top, w) && s.Keys == Ptrs(w) && Good(w)
  }

  ghost predicate Good(w: Tree) {
    Balanced(w) && TreeColor(w).Black? && Exact(w) && Ordered(Pivots(w))
  }

  /** The same, seen from leaf `t`. */
  ghost predicate SoundAround(s: Store, root: Ptr, c: Ctx, t: Tree) {
    && t.Tip? && Zip(s, root, c, t) && s.Keys == PtrsC(c) + {t.p}
    && Fits(c, 0, Black) && TopColor(c, Black).Black? && ExactC(c)
    && Ordered(PivotsBefore(c) + PivotsAfter(c)) && LowOf(c) < HighOf(c) <= END
  }

  /** The root leaf of a new tree, whose recorded size is one short of the range it covers. */
  ghost predicate NeverInserted(w: Tree) {
    w.Tip? && w.leaf == Empty(HIGHEST_USER_ADDRESS)
  }

  /** Addresses lo..hi-1 lie in one gap. */
  ghost predicate FreeRange(areas: seq<Area>, lo: nat, hi: nat) {
    exists a :: a in areas && a.leaf.Empty? && a.lo <= lo && hi <= a.hi
  }

  lemma FreeInside(w: Tree, lo: nat, hi: nat)
    requires Ordered(Pivots(w)) && FreeRange(Areas(w), lo, hi) && lo < hi
    ensures hi <= END
  {
    OrderedTiled(w);
    var a :| a in Areas(w) && a.leaf.Empty? && a.lo <= lo && hi <= a.hi;
    var i :| 0 <= i < |Areas(w)| && Areas(w)[i] == a;
    if i < |Areas(w)| - 1 {
      TiledOrder(Areas(w), i, |Areas(w)| - 1);
    }
  }

  lemma FoundFree(c: Ctx, t: Tree, lo: nat, hi: nat)
    requires t.Tip? && Ordered(Pivots(Plug(c, t))) && FreeRange(Areas(Plug(c, t)), lo, hi) && lo < hi
    requires LowOf(c) <= lo < HighOf(c)
    ensures t.leaf.Empty? && hi <= HighOf(c)
  {
    var w := Plug(c, t);
    var a :| a in Areas(w) && a.leaf.Empty? && a.lo <= lo && hi <= a.hi;
    var i :| 0 <= i < |Areas(w)| && Areas(w)[i] == a;
    FoundArea(c, t, i, lo);
  }

  // ----- the outcome -----

  /** Leaf `q` of `w` is a segment over exactly lo..hi-1. */
  ghost predicate LeafCovers(w: Tree, q: Ptr, lo: nat, hi: nat, flags: Flags) {
    exists j :: 0 <= j < |Slots(w)| && Slots(w)[j] == Slot(q, Used(flags)) && Areas(w)[j] == Area(lo, hi, Used(flags))
  }

  /** Of the focused gap, addresses lo..hi-1 became a segment held by leaf `q`. */
  ghost predicate Inserted(c: Ctx, t: Tree, w: Tree, lo: nat, hi: nat, flags: Flags, q: Ptr)
    requires t.Tip?
  {
    && Areas(w) == AreasBefore(c) + InsertPieces(Area(LowOf(c), HighOf(c), t.leaf), lo, hi, flags) + AreasAfter(c)
    && HeldBy(w, |SlotsBefore(c)| + if LowOf(c) < lo then 1 else 0, q)
  }

  ghost predicate HeldBy(w: Tree, j: nat, q: Ptr) {
    j < |Slots(w)| && Slots(w)[j].p == q
  }

  /** What a completed insertion means for the segments and the gaps. */
  lemma InsertedView(c: Ctx, t: Tree, w: Tree, lo: nat, hi: nat, flags: Flags, q: Ptr)
    requires t.Tip? && t.leaf.Empty? && Inserted(c, t, w, lo, hi, flags, q) && lo < hi
    requires NoAdjacentGaps(Areas(Plug(c, t))) && (Sized(Areas(Plug(c, t))) || NeverInserted(Plug(c, t)))
    ensures NoAdjacentGaps(Areas(w)) && Sized(Areas(w))
    ensures Segments(Areas(w)) == Segments(Areas(Plug(c, t))) + {Segment(lo, hi - lo, flags)}
  {
    var x := Area(LowOf(c), HighOf(c), t.leaf);
    FocusTip(c, t);
    InsertedSegments(AreasBefore(c), x, AreasAfter(c), lo, hi, flags);
    InsertedGaps(AreasBefore(c), x, AreasAfter(c), lo, hi, flags);
    InsertedSizes(AreasBefore(c), x, AreasAfter(c), lo, hi, flags);
  }

  lemma InsertedLeaf(c: Ctx, t: Tree, w: Tree, lo: nat, hi: nat, flags: Flags, q: Ptr)
    requires t.Tip? && Inserted(c, t, w, lo, hi, flags, q)
    ensures LeafCovers(w, q, lo, hi, flags)
  {
    var j := |SlotsBefore(c)| + if LowOf(c) < lo then 1 else 0;
    AreasFlat(w, 0, END);
    assert Areas(w)[j] == Area(lo, hi, Used(flags));
    assert Slots(w)[j] == Slot(q, Used(flags));
  }

  lemma InsertedSegment(c: Ctx, t: Tree, w: Tree, start: nat, end: nat, len: nat, flags: Flags, q: Ptr)
    requires t.Tip? && t.leaf.Empty? && Inserted(c, t, w, start, end + 1, flags, q) && len > 0 && end + 1 == start + len
    requires LowOf(c) <= start && end < HighOf(c)
    requires NoAdjacentGaps(Areas(Plug(c, t))) && (Sized(Areas(Plug(c, t))) || NeverInserted(Plug(c, t)))
    ensures NoAdjacentGaps(Areas(w)) && Sized(Areas(w)) && LeafCovers(w, q, start, start + len, flags)
    ensures Segments(Areas(w)) == Segments(Areas(Plug(c, t))) + {Segment(start, len, flags)}
  {
    InsertedView(c, t, w, start, start + len, flags, q);
    InsertedLeaf(c, t, w, start, start + len, flags, q);
    assert start + len - start == len;
  }

  lemma TipPivots(c: Ctx, t: Tree, t': Tree)
    requires t.Tip? && t'.Tip?
    ensures Pivots(Plug(c, t)) == Pivots(Plug(c, t')) == PivotsBefore(c) + PivotsAfter(c)
  {
    PlugFlat(c, t);
    PlugFlat(c, t');
  }

  lemma LinkedOrdered(c: Ctx, nb: Tree, w: Tree)
    requires nb.Fork? && nb.left.Tip? && nb.right.Tip? && SameFlat(Plug(c, nb), w)
    requires Ordered(PivotsBefore(c) + PivotsAfter(c))
    requires LowOf(c) < nb.pivot < HighOf(c) <= END && nb.pivot % 4 == 0
    ensures Ordered(Pivots(w)) && Ptrs(w) == PtrsC(c) + Ptrs(nb)
  {
    assert Pivots(w) == PivotsBefore(c) + [nb.pivot] + PivotsAfter(c) by {
      PlugFlat(c, nb);
      assert Pivots(nb) == [nb.pivot];
    }
    BoundsFlat(c);
    OrderedCut(PivotsBefore(c), nb.pivot, PivotsAfter(c));
    assert Ptrs(w) == PtrsC(c) + Ptrs(nb) by {
      PlugPtrs(c, nb);
    }
  }

  /** A leaf became a branch over two leaves. */
  lemma LinkedAreas(c: Ctx, nb: Tree, w: Tree)
    requires nb.Fork? && nb.left.Tip? && nb.right.Tip? && SameFlat(Plug(c, nb), w)
    ensures Areas(w) == AreasBefore(c)
                        + [Area(LowOf(c), nb.pivot, nb.left.leaf), Area(nb.pivot, HighOf(c), nb.right.leaf)]
                        + AreasAfter(c)
    ensures HeldBy(w, |SlotsBefore(c)|, nb.left.p) && HeldBy(w, |SlotsBefore(c)| + 1, nb.right.p)
  {
    PlugAreas(c, nb);
    SameAreas(Plug(c, nb), w);
    ForkAreas(nb, LowOf(c), HighOf(c));
    PlugFlat(c, nb);
  }

  lemma InsertedWhole(c: Ctx, t: Tree, used: Tree, w: Tree)
    requires t.Tip? && used.Tip? && used.p == t.p && used.leaf.Used? && SameFlat(Plug(c, used), w)
    requires Ordered(PivotsBefore(c) + PivotsAfter(c))
    ensures Ordered(Pivots(w)) && Ptrs(w) == PtrsC(c) + {t.p}
    ensures Inserted(c, t, w, LowOf(c), HighOf(c), used.leaf.flags, t.p)
  {
    FocusTip(c, used);
    SameAreas(Plug(c, used), w);
    PlugPtrs(c, used);
    TipPivots(c, t, used);
  }

  lemma SplitSame<T>(a: seq<T>, x: T, b: seq<T>, a': seq<T>, x': T, b': seq<T>)
    requires a + [x] + b == a' + [x'] + b' && |a| == |a'|
    ensures a == a' && x == x' && b == b'
  {
    var s := a + [x] + b;
    assert a == s[..|a|] && x == s[|a|] && b == s[|a| + 1..];
    assert a' == s[..|a|] && x' == s[|a|] && b' == s[|a| + 1..];
  }

  lemma InsertedInside(c: Ctx, t: Tree, w: Tree, g: nat, lo: nat, hi: nat, u: Area, y: Area, q: Ptr)
    requires t.Tip? && LowOf(c) == g < lo && hi < HighOf(c) && u.leaf.Used? && u.hi == hi
    requires y == Area(hi, HighOf(c), Empty(HighOf(c) - hi))
    requires Areas(w) == AreasBefore(c) + [Area(g, lo, Empty(lo - g)), Area(lo, u.hi, u.leaf)] + ([y] + AreasAfter(c))
    requires HeldBy(w, |AreasBefore(c)| + 1, q)
    ensures Inserted(c, t, w, lo, hi, u.leaf.flags, q)
  {
    var a, b := Area(g, lo, Empty(lo - g)), Area(lo, u.hi, u.leaf);
    Regroup(AreasBefore(c), [a, b], [], [y], AreasAfter(c));
    assert [a, b] + [] + [y] == [a, b, y];
    assert [] + [y] + AreasAfter(c) == [y] + AreasAfter(c);
  }

  lemma InsertedAtEnd(c: Ctx, t: Tree, nb: Tree, w: Tree, g: nat)
    requires t.Tip? && nb.Fork? && nb.left.Tip? && nb.right.Tip? && SameFlat(Plug(c, nb), w)
    requires LowOf(c) == g < nb.pivot && nb.left.leaf == Empty(nb.pivot - g) && nb.right.leaf.Used?
    ensures Inserted(c, t, w, nb.pivot, HighOf(c), nb.right.leaf.flags, nb.right.p)
  {
    LinkedAreas(c, nb, w);
  }

  lemma InsertedAtStart(c: Ctx, t: Tree, nb: Tree, w: Tree, h: nat)
    requires t.Tip? && nb.Fork? && nb.left.Tip? && nb.right.Tip? && SameFlat(Plug(c, nb), w)
    requires nb.pivot < HighOf(c) == h && nb.right.leaf == Empty(h - nb.pivot) && nb.left.leaf.Used?
    ensures Inserted(c, t, w, LowOf(c), nb.pivot, nb.left.leaf.flags, nb.left.p)
  {
    LinkedAreas(c, nb, w);
  }

  /** Where the used leaf sits between the two links. */
  lemma BetweenLinks(c: Ctx, t: Tree, b: seq<Area>, u: Area, y: Area, a: seq<Area>, addr: nat)
    requires t.Tip? && Ordered(Pivots(Plug(c, t))) && Areas(Plug(c, t)) == b + [u, y] + a
    requires u.lo <= addr < u.hi && LowOf(c) <= addr < HighOf(c)
    ensures |SlotsBefore(c)| == |b| && LowOf(c) == u.lo && HighOf(c) == u.hi && t.leaf == u.leaf
    ensures AreasBefore(c) == b && AreasAfter(c) == [y] + a
    ensures Slots(Plug(c, t))[|b|] == Slot(t.p, t.leaf)
  {
    FoundArea(c, t, |b|, addr);
    FocusTip(c, t);
    assert b + [u, y] + a == b + [u] + ([y] + a);
    SplitSame(b, u, [y] + a, AreasBefore(c), Area(LowOf(c), HighOf(c), t.leaf), AreasAfter(c));
  }

  lemma KeysBetweenLinks(keys: set<Ptr>, around: set<Ptr>, linked: set<Ptr>, gap: Ptr, start: Ptr, added: set<Ptr>)
    requires keys == around + {gap} + (added + {start}) && linked == around + added
    ensures keys == linked + {gap, start}
  {
  }

  /** Writing a leaf and updating the gap data above it. */
  lemma AboveKeeps(c: Ctx, t: Tree)
    requires t.Tip? && Fits(c, 0, Black) && TopColor(c, Black).Black? && ExactC(c)
    ensures SameFlat(Plug(c, t), Above(c, t))
    ensures Balanced(Above(c, t)) && TreeColor(Above(c, t)).Black? && Exact(Above(c, t))
  {
    PlugBalanced(c, t);
    if c.Step? {
      UpdatedFlat(c.up, Pull(c, t));
      UpdatedBalanced(c.up, Pull(c, t));
      UpdatedExact(c.up, Pull(c, t));
    }
  }

  lemma LinkedKeys(s0: Store, s: Store, c: Ctx, t: Tree, nb: Tree, w: Tree)
    requires nb.Fork? && nb.left.Tip? && nb.right.Tip?
    requires s0.Keys == PtrsC(c) + {t.p} && s.Keys == s0.Keys + {nb.p, nb.left.p, nb.right.p}
    requires nb.left.p == t.p || nb.right.p == t.p
    requires Ptrs(w) == PtrsC(c) + Ptrs(nb)
    ensures s.Keys == Ptrs(w)
  {
    assert Ptrs(nb) == {nb.p, nb.left.p, nb.right.p};
  }

  /** Leaving out reserved nodes that are not linked yet. */
  lemma WithoutSpares(s: Store, s0: Store, root: Ptr, c: Ctx, t: Tree, spares: set<Ptr>)
    requires Zip(s, root, c, t) && t.Tip? && Good(Plug(c, t))
    requires s.Keys == Ptrs(Plug(c, t)) + spares && spares !! Ptrs(Plug(c, t)) && s0 == s - spares
    ensures SoundAround(s0, root, c, t)
  {
    PlugPtrs(c, t);
    ZipFrame(s, s0, root, c, t);
    SoundFocus(s0, root, c, t);
  }

  /** The record of a new branch and its two leaves is in the arena, next to the tree. */
  ghost predicate FreshBranch(s0: Store, s: Store, c: Ctx, q: Ptr, nb: Tree) {
    && nb.Fork? && nb.left.Tip? && nb.right.Tip?
    && nb.p in s && nb.left.p in s && nb.right.p in s
    && s[nb.p] == NodeOf(nb, ParentOf(c))
    && s[nb.left.p] == LeafNode(nb.left.leaf) && s[nb.right.p] == LeafNode(nb.right.leaf)
    && nb.p != nb.left.p && nb.p != nb.right.p && nb.left.p != nb.right.p
    && nb.p !in s0 && (nb.left.p == q || nb.left.p !in s0) && (nb.right.p == q || nb.right.p !in s0)
  }

  /** A branch over leaf `t`, cut down to `cut`, and one new leaf has just been written. */
  lemma OverReady(s0: Store, s: Store, root: Ptr, c: Ctx, t: Tree, cut: Tree, nb: Tree, leaf: Tree)
    requires SoundAround(s0, root, c, t) && cut.Tip? && cut.p == t.p && leaf.Tip? && nb.Fork?
    requires (nb.left == cut && nb.right == leaf) || (nb.left == leaf && nb.right == cut)
    requires nb.p !in s0 && leaf.p !in s0 && nb.p != leaf.p
    requires s == s0[leaf.p := LeafNode(leaf.leaf)][nb.p := NodeOf(nb, ParentOf(c))][t.p := LeafNode(cut.leaf)]
    ensures Agree(s0, s, PtrsC(c)) && t.p in s && s[t.p] == LeafNode(cut.leaf) && FreshBranch(s0, s, c, t.p, nb)
    ensures s.Keys == s0.Keys + {nb.p, nb.left.p, nb.right.p}
  {
    assert t.p in s0;
  }

  /** The nodes of an insertion inside a gap have just been written. */
  lemma InsideReady(s0: Store, s: Store, root: Ptr, c: Ctx, t: Tree, nb: Tree, spare: Ptr, n: Node)
    requires SoundAround(s0, root, c, t) && nb.Fork? && nb.left.Tip? && nb.right.Tip?
    requires nb.p !in s0 && nb.left.p !in s0 && nb.right.p !in s0 && spare !in s0
    requires nb.p != nb.left.p && nb.p != nb.right.p && nb.left.p != nb.right.p && spare !in {nb.p, nb.left.p, nb.right.p}
    requires s == s0[nb.left.p := LeafNode(nb.left.leaf)][nb.right.p := LeafNode(nb.right.leaf)]
                    [nb.p := NodeOf(nb, ParentOf(c))][spare := n]
    ensures Agree(s0, s, PtrsC(c) + {t.p}) && FreshBranch(s0, s, c, t.p, nb)
    ensures s.Keys == s0.Keys + {nb.p, nb.left.p, nb.right.p, spare} && nb.left.p != t.p && nb.right.p != t.p
  {
    assert t.p in s0;
  }

  lemma FreshBranchTree(s0: Store, s: Store, root: Ptr, c: Ctx, t: Tree, nb: Tree)
    requires Zip(s0, root, c, t) && t.Tip? && FreshBranch(s0, s, c, t.p, nb)
    requires PtrsC(c) <= s0.Keys
    ensures Rep(s, nb, ParentOf(c)) && Distinct(nb) && Ptrs(nb) !! PtrsC(c)
  {
    assert Rep(s, nb.left, Some(nb.p)) && Rep(s, nb.right, Some(nb.p));
    assert Ptrs(nb) == {nb.p, nb.left.p, nb.right.p};
  }

  /** The arena just before a new branch replaces the focused leaf. */
  lemma LinkReady(s0: Store, s: Store, root: Ptr, c: Ctx, t: Tree, cut: Tree, nb: Tree)
    requires SoundAround(s0, root, c, t) && cut.Tip? && cut.p == t.p
    requires Agree(s0, s, PtrsC(c)) && t.p in s && s[t.p] == LeafNode(cut.leaf)
    requires FreshBranch(s0, s, c, t.p, nb)
    ensures Zip(s, root, c, cut) && Rep(s, nb, ParentOf(c)) && Distinct(nb) && Ptrs(nb) !! PtrsC(c)
  {
    FreshBranchTree(s0, s, root, c, t, nb);
    ZipReplace(s0, s, root, root, c, t, cut);
  }

  /** Focusing on a leaf of a sound tree. */
  lemma SoundFocus(s: Store, root: Ptr, c: Ctx, t: Tree)
    requires Zip(s, root, c, t) && t.Tip? && s.Keys == Ptrs(Plug(c, t)) && Good(Plug(c, t))
    ensures SoundAround(s, root, c, t)
  {
    assert s.Keys == PtrsC(c) + {t.p} by {
      PlugPtrs(c, t);
    }
    PlugExact(c, t);
    PlugBalanced(c, t);
    BoundsNonEmpty(c, t);
    TipPivots(c, t, t);
  }

  lemma LinkedRed(c: Ctx, nb: Tree)
    requires nb.Fork? && nb.left.Tip? && nb.right.Tip? && !nb.temp
    requires Fits(c, 0, Black) && TopColor(c, Black).Black? && ExactC(c)
    ensures RedFocus(c, nb.(color := Red))
    ensures SameFlat(Plug(c, nb), Plug(c, nb.(color := Red)))
    ensures ExactOff(Plug(c, nb.(color := Red)), nb.p)
  {
    var red := nb.(color := Red);
    PaintFlat(nb, Red);
    PlugSameFlat(c, nb, red);
    ExactIsOffC(c, nb.p);
    ReplaceOff(c, red, nb.p);
  }

  lemma LinkedExact(c: Ctx, t: Tree, q: Ptr)
    requires ExactOff(Plug(c, t), q) && t.Fork? && t.p == q
    requires Distinct(t) && Ptrs(t) !! PtrsC(c)
    ensures Exact(Updated(c, t))
  {
    PlugOff(c, t, q);
    OffIsExact(t.left, q);
    OffIsExact(t.right, q);
    OffIsExactC(c, q);
    UpdatedExact(c, t);
  }

  /** Two levels up, a rewritten subtree keeps leaves, pivots and gap data. */
  lemma Rewritten(c: Ctx, t: Tree, g': Tree, q: Ptr)
    requires c.Step? && c.up.Step?
    requires q in Ptrs(t) && ExactOff(Plug(c, t), q)
    requires SameFlat(Pull(c.up, Pull(c, t)), g') && ExactOff(g', q)
    ensures SameFlat(Plug(c, t), Plug(c.up.up, g'))
    ensures ExactOff(Plug(c.up.up, g'), q)
    ensures q in Ptrs(g')
  {
    var p := Pull(c, t);
    var g := Pull(c.up, p);
    assert Plug(c, t) == Plug(c.up, p) == Plug(c.up.up, g);
    PlugOff(c.up.up, g, q);
    assert q in Ptrs(p) && q in Ptrs(g);
    PlugSameFlat(c.up.up, g, g');
    ReplaceOff(c.up.up, g', q);
  }

  lemma PartsOff(c: Ctx, t: Tree, q: Ptr)
    requires c.Step? && c.up.Step? && ExactOff(Plug(c, t), q)
    ensures ExactOff(t, q) && ExactOff(c.sib, q) && ExactOff(c.up.sib, q)
  {
    var p := Pull(c, t);
    assert Plug(c, t) == Plug(c.up, p);
    PlugOff(c.up, p, q);
    assert ExactOff(p, q);
  }

  lemma RecolorRound(c: Ctx, t: Tree, q: Ptr)
    requires RedFocus(c, t) && c.Step? && c.color.Red? && c.up.Step?
    requires c.up.sib.Fork? && c.up.sib.color.Red?
    requires q in Ptrs(t) && ExactOff(Plug(c, t), q)
    ensures RoundDone(c, t, c.up.up, Recolored(c, t), q)
  {
    PartsOff(c, t, q);
    RecoloredFlat(c, t);
    RecoloredFocus(c, t);
    var p := Pull(c, t);
    assert q in Ptrs(p) && q in Ptrs(Recolored(c, t));
    assert ExactOff(p.(color := Black), q) && ExactOff(c.up.sib.(color := Black), q);
    Rewritten(c, t, Recolored(c, t), q);
  }

  lemma TurnRound(c: Ctx, t: Tree, q: Ptr)
    requires RedFocus(c, t) && c.Step? && c.color.Red? && c.up.Step?
    requires TreeColor(c.up.sib).Black?
    requires q in Ptrs(t) && ExactOff(Plug(c, t), q)
    ensures Turned(c, t).Fork?
    ensures RoundDone(c, t, Push(c.up.side, Turned(c, t), c.up.up), Child(c.up.side, Turned(c, t)), q)
  {
    PartsOff(c, t, q);
    TurnedFlat(c, t);
    TurnedOff(c, t, q);
    Rewritten(c, t, Turned(c, t), q);
    TurnedFocus(c, t);
    var r := Turned(c, t);
    var c' := Push(c.up.side, r, c.up.up);
    assert Plug(c', Child(c.up.side, r)) == Plug(c.up.up, r);
  }

  /** What one round of the insertion fix-up keeps, and that it moved up. */
  ghost predicate RoundDone(c: Ctx, t: Tree, c': Ctx, t': Tree, q: Ptr) {
    && RedFocus(c', t') && Depth(c') < Depth(c)
    && SameFlat(Plug(c, t), Plug(c', t'))
    && ExactOff(Plug(c', t'), q)
    && (c'.Step? && c'.color.Red? ==> q in Ptrs(t'))
  }
}
