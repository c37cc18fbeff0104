/** How the shared temporary node loses a tree: after four calls, and within one. */
module VmaLosses {
  import opened Wrappers
  import opened VmaNodes
  import opened VmaShape
  import opened VmaBalance
  import opened VmaGaps
  import opened VmaLayout
  import opened VmaInsert
  import opened VmaDelete
  import opened VmaRemove
  import opened VmaJoin
  import opened VmaTemp
  import opened VmaSafety
  import opened VmaTree

  // ----- a segment at the bottom of an otherwise empty range -----

  lemma SoleSegment(w: Tree, len: nat, flags: Flags)
    requires Sane(w) && Segments(Areas(w)) == {Segment(0, len, flags)} && len < END
    ensures w.Fork? && w.color.Black? && w.left.Tip? && w.right.Tip? && w.pivot == len
    ensures w.left.leaf == Used(flags) && w.right.leaf.Empty?
  {
    var a := Areas(w);
    OrderedTiled(w);
    assert |a| > 2 ==> a[1].leaf.Used? || a[1 + 1].leaf.Used?;
    forall i | 0 <= i < |a| && a[i].leaf.Used?
      ensures i == 0 && a[i].hi == len && a[i].leaf.flags == flags
    {
      assert SegmentOf(a[i]) in Segments(a);
      if i > 0 {
        TiledOrder(a, 0, i);
      }
    }
    var u :| u in a && u.leaf.Used?;
    assert |a| > 1;
    TwoSlots(w);
    ForkAreas(w, 0, END);
    assert a[0].leaf.Used? && a[1].leaf.Empty?;
  }

  lemma {:induction false} TwoSlots(w: Tree)
    requires |Slots(w)| == 2
    ensures w.Fork? && w.left.Tip? && w.right.Tip?
  {
    SomeSlot(w.left);
    SomeSlot(w.right);
  }

  lemma {:induction false} SomeSlot(w: Tree)
    ensures |Slots(w)| >= 1 && (w.Fork? ==> |Slots(w)| >= 2)
  {
    if w.Fork? {
      SomeSlot(w.left);
      SomeSlot(w.right);
    }
  }

  /** Deleting such a segment links the shared node; if that node is linked already, the tree is lost. */
  lemma SoleDelete(k: Ptr, w: Tree, len: nat, flags: Flags)
    requires Sane(w) && Segments(Areas(w)) == {Segment(0, len, flags)} && 0 < len < END
    ensures var run := DeleteRun(k, w, 0);
      if k in Ptrs(w) then run.fate.Overwrites? else run.fate.Fine? && run.tree.Tip? && run.tree.p == k && run.tree.leaf.Empty?
  {
    SoleSegment(w, len, flags);
    var c := Push(Left, w, Top);
    assert LeafFor(c, w.left, 0) == (c, w.left);
    assert LeafFor(Top, w, 0) == (c, w.left);
    var t := Gapped(c, w.left);
    var p := Pull(c, t);
    SoleRemoved(k, p);
    assert DeleteRun(k, w, 0) == JoinRunWithin(k, |Slots(Plug(c, t))|, Top, p, 0);
    assert p.left == t && p.right == w.right && Slots(p) == Slots(p.left) + Slots(p.right);
    var w1 := Tip(k, Combined(p).right.leaf);
    assert LeafFor(Top, w1, 0) == (Top, w1) && LoopRun(k, w1, 0) == Run(Fine, w1);
  }

  lemma SoleRemoved(k: Ptr, p: Tree)
    requires BetweenGaps(p) && p.color.Black? && p.left.Tip? && p.right.Tip?
    ensures var t := Combined(p); Target(t) == t && Takes(t) && Removed(Top, t, k) == Tip(k, t.right.leaf)
    ensures RemoveFate(Some(k), Top, Combined(p)) == if k in Ptrs(p) then Overwrites else Fine
  {
    var t := Combined(p);
    assert SetLast(p.left, t.left.leaf) == t.left && SetFirst(p.right, t.right.leaf) == t.right;
    assert Target(t) == t && TargetCtx(Top, t) == Top;
    var x := Moved(t, k);
    assert x == Fork(k, 0, true, Black, 0, t.left, t.right);
    assert Fixed(Top, x) == Top;
    assert Ptrs(t) == Ptrs(p);
  }

  /**
   * Mapping and unmapping the bottom of a new address space twice, with nodes for one branch and its leaves:
   * the first deletion links the shared node, the second one overwrites it.
   */
  method LostInFourCalls(temp: Ptr, len: nat, flags: Flags, nodesLeft: nat) returns (tree: VMATree, first: Fate, second: Fate)
    requires 0 < len < END && len % 4 == 0 && nodesLeft >= 2
    ensures first.Fine? && second.Overwrites? && !Readable(tree.store, tree.root)
  {
    tree := new VMATree(Some(temp), nodesLeft);
    InsertSole(tree, len, flags);
    first := DeleteSole(tree, len, flags);
    InsertSole(tree, len, flags);
    second := DeleteSole(tree, len, flags);
  }

  method InsertSole(tree: VMATree, len: nat, flags: Flags)
    requires tree.Valid() && tree.shape.Tip? && tree.shape.leaf.Empty? && 0 < len < END && len % 4 == 0 && tree.nodesLeft >= 2
    modifies tree
    ensures tree.Valid() && Segments(Areas(tree.shape)) == {Segment(0, len, flags)}
    ensures Linked(tree.sharedTemp, tree.shape) <==> old(Linked(tree.sharedTemp, tree.shape))
    ensures tree.nodesLeft + 2 >= old(tree.nodesLeft)
  {
    assert FreeRange(Areas(tree.shape), 0, 0 + len);
    assert Segments(Areas(tree.shape)) == {};
    var mapped := tree.Insert(0, len, flags);
    assert mapped.Ok?;
  }

  lemma SoleNodes(w: Tree, k: Ptr)
    requires w.Fork? && w.left.Tip? && w.right.Tip? && Distinct(w) && k !in Ptrs(w)
    ensures |StorageNodes(Ptrs(w), Some(k))| == 3 && StorageNodes({k}, Some(k)) == {}
  {
    assert StorageNodes(Ptrs(w), Some(k)) == {w.p, w.left.p, w.right.p};
  }

  method DeleteSole(tree: VMATree, len: nat, flags: Flags) returns (fate: Fate)
    requires tree.Valid() && tree.sharedTemp.Some? && 0 < len < END && Segments(Areas(tree.shape)) == {Segment(0, len, flags)}
    modifies tree
    ensures fate == if old(Linked(tree.sharedTemp, tree.shape)) then Overwrites else Fine
    ensures fate.Fine? ==> tree.Valid() && tree.shape.Tip? && tree.shape.leaf.Empty? && Linked(tree.sharedTemp, tree.shape)
    ensures fate.Overwrites? ==> !Readable(tree.store, tree.root)
    ensures fate.Fine? ==> tree.nodesLeft >= old(tree.nodesLeft) + 2
  {
    assert Segment(0, len, flags) in Segments(Areas(tree.shape)) && Contains(Segment(0, len, flags), 0);
    SoleDelete(tree.sharedTemp.value, tree.shape, len, flags);
    SoleSegment(tree.shape, len, flags);
    if !Linked(tree.sharedTemp, tree.shape) {
      SoleNodes(tree.shape, tree.sharedTemp.value);
    }
    fate := tree.Delete(0);
  }

  // ----- a loss within one deletion -----

  function LowBranches(f: Flags): (t: Tree)
    ensures t.Fork?
  {
    Fork(2, 0x2000, false, Black, 0x1000,
         Fork(1, 0x1000, false, Black, 0, Tip(10, Used(f)), Tip(11, Used(f))),
         Fork(3, 0x3000, false, Black, 0x1000, Tip(12, Empty(0x1000)), Tip(13, Used(f))))
  }

  function HighBranches(f: Flags): (t: Tree)
    ensures t.Fork?
  {
    Fork(106, 0x6000, false, Black, 0x1000,
         Fork(105, 0x5000, false, Black, 0x1000, Tip(114, Empty(0x1000)), Tip(115, Used(f))),
         Fork(107, 0x7000, false, Black, 0, Tip(116, Used(f)), Tip(117, Used(f))))
  }

  /** Seven black branches over eight areas, all but the last a page long. */
  function SevenBranches(f: Flags): Tree {
    Fork(50, 0x4000, false, Black, 0x1000, LowBranches(f), HighBranches(f))
  }

  lemma LowIs(f: Flags)
    ensures var t := LowBranches(f);
      && Balanced(t) && BlackHeight(t) == 2 && Exact(t) && Distinct(t) && (forall p | p in Ptrs(t) :: p < 20)
      && Gap(t) == 0x1000 && TreeColor(t).Black? && Pivots(t) == [0x1000, 0x2000, 0x3000]
  {
  }

  lemma HighIs(f: Flags)
    ensures var t := HighBranches(f);
      && Balanced(t) && BlackHeight(t) == 2 && Exact(t) && Distinct(t) && (forall p | p in Ptrs(t) :: p > 100)
      && Gap(t) == 0x1000 && TreeColor(t).Black? && Pivots(t) == [0x5000, 0x6000, 0x7000]
  {
  }

  lemma LowAreas(f: Flags)
    ensures AreasIn(LowBranches(f), 0, 0x4000) == [Area(0, 0x1000, Used(f)), Area(0x1000, 0x2000, Used(f)),
                                                   Area(0x2000, 0x3000, Empty(0x1000)), Area(0x3000, 0x4000, Used(f))]
  {
    var t := LowBranches(f);
    ForkAreas(t.left, 0, 0x2000);
    ForkAreas(t.right, 0x2000, 0x4000);
  }

  lemma HighAreas(f: Flags)
    ensures AreasIn(HighBranches(f), 0x4000, END) == [Area(0x4000, 0x5000, Empty(0x1000)), Area(0x5000, 0x6000, Used(f)),
                                                      Area(0x6000, 0x7000, Used(f)), Area(0x7000, END, Used(f))]
  {
    var t := HighBranches(f);
    ForkAreas(t.left, 0x4000, 0x6000);
    ForkAreas(t.right, 0x6000, END);
  }

  lemma SevenSane(f: Flags)
    ensures Sane(SevenBranches(f)) && 60 !in Ptrs(SevenBranches(f))
    ensures Segment(0x3000, 0x1000, f) in Segments(Areas(SevenBranches(f)))
  {
    SevenPivots(f);
    SevenAreas(f);
    SevenBalanced(f);
  }

  lemma SevenBalanced(f: Flags)
    ensures var w := SevenBranches(f); Balanced(w) && Exact(w) && Distinct(w) && 60 !in Ptrs(w)
  {
    LowIs(f);
    HighIs(f);
    Halves(LowBranches(f), HighBranches(f));
  }

  lemma Halves(l: Tree, r: Tree)
    requires Balanced(l) && Balanced(r) && BlackHeight(l) == BlackHeight(r) && TreeColor(l).Black? && TreeColor(r).Black?
    requires Exact(l) && Exact(r) && Gap(l) == Gap(r) == 0x1000 && Distinct(l) && Distinct(r)
    requires (forall p | p in Ptrs(l) :: p < 20) && (forall p | p in Ptrs(r) :: p > 100)
    ensures var w := Fork(50, 0x4000, false, Black, 0x1000, l, r); Balanced(w) && Exact(w) && Distinct(w) && 60 !in Ptrs(w)
  {
  }

  lemma SevenPivots(f: Flags)
    ensures Ordered(Pivots(SevenBranches(f)))
  {
    LowIs(f);
    HighIs(f);
    var ps := Pivots(SevenBranches(f));
    assert ps == [0x1000, 0x2000, 0x3000, 0x4000, 0x5000, 0x6000, 0x7000];
    OrderedIff(ps);
  }

  lemma SevenAreas(f: Flags)
    ensures var a := Areas(SevenBranches(f)); NoAdjacentGaps(a) && Sized(a) && Segment(0x3000, 0x1000, f) in Segments(a)
  {
    var w := SevenBranches(f);
    LowAreas(f);
    HighAreas(f);
    assert Areas(w) == AreasIn(w.left, 0, 0x4000) + AreasIn(w.right, 0x4000, END);
    assert SegmentOf(Areas(w)[3]) in Segments(Areas(w));
  }

  /** The gap that segment becomes, joined with the gap before it: the shared node holds both. */
  lemma FirstLoss(f: Flags)
    ensures var w := SevenBranches(f); var low := w.left;
      var p := low.right.(maxEmpty := 0x1000, right := Tip(13, Empty(0x1000)));
      && BetweenGaps(p) && Takes(Combined(p)) && Target(Combined(p)) == Combined(p)
      && Removed(Push(Right, low, Push(Left, w, Top)), Combined(p), 60) == AfterFirst(f)
  {
    var w := SevenBranches(f);
    var low := w.left;
    var p := low.right.(right := Tip(13, Empty(0x1000)));
    var top := Push(Left, w, Top);
    var c := Push(Right, low, top);
    var t := Fork(3, 0x3000, false, Black, 0x1000, Tip(12, Empty(0x2000)), Tip(13, Empty(0x2000)));
    assert Combined(p) == t;
    assert Target(t) == t && TargetCtx(c, t) == c;
    var x := Fork(60, 0, true, Black, 0, t.left, t.right);
    assert Moved(t, 60) == x;
    assert PastRed(c, x) == c && GoesOn(c);
    var c' := Round(c, x);
    assert c' == c.(sib := c.sib.(color := Red));
    var y := Pull(c', x);
    assert PastRed(top, y) == top && GoesOn(top) && Round(top, y) == top.(sib := w.right.(color := Red));
    assert Fixed(Top, Pull(Round(top, y), y)) == Top;
    assert Fixed(top, y) == Round(top, y);
    assert Fixed(c, x) == c'.(up := Round(top, y));
  }

  /** The tree between the two joins. */
  function AfterFirst(f: Flags): Tree {
    Fork(50, 0x4000, false, Black, 0x2000,
         Fork(2, 0x2000, false, Black, 0x2000,
              Fork(1, 0x1000, false, Red, 0, Tip(10, Used(f)), Tip(11, Used(f))), Tip(60, Empty(0x2000))),
         Fork(106, 0x6000, false, Red, 0x1000, HighBranches(f).left, HighBranches(f).right))
  }

  lemma SecondLoss(f: Flags)
    ensures LoopRun(60, AfterFirst(f), 0x3000).fate.Overwrites?
  {
    var w := AfterFirst(f);
    var t := w.left.right;
    var top := Push(Left, w, Top);
    var c := Push(Right, w.left, top);
    assert LeafFor(c, t, 0x3000) == (c, t);
    assert LeafFor(top, w.left, 0x3000) == (c, t);
    assert LeafFor(Top, w, 0x3000) == (c, t);
    assert Refreshed(c, Gap(t)) == c;
    assert LastLeaf(w.left.left) == Tip(11, Used(f)) && !BetweenGaps(w.left);
    assert LastLeaf(w.left) == t && FirstLeaf(w.right) == Tip(114, Empty(0x1000));
    assert Meeting(c, t) == Some((Top, w));
    var t' := Combined(w);
    assert t'.right == SetFirst(w.right, Empty(0x3000));
    assert t'.right.left == SetFirst(w.right.left, Empty(0x3000));
    assert Takes(Target(t'));
    assert t'.left == SetLast(w.left, Empty(0x3000));
    assert 60 in Ptrs(t'.left);
  }

  /** The first join takes the free shared node, the second join overwrites it. */
  lemma LostWithinOneDeletion(f: Flags)
    ensures Sane(SevenBranches(f)) && 60 !in Ptrs(SevenBranches(f))
    ensures Segment(0x3000, 0x1000, f) in Segments(Areas(SevenBranches(f)))
    ensures DeleteRun(60, SevenBranches(f), 0x3000).fate.Overwrites?
  {
    SevenSane(f);
    var w := SevenBranches(f);
    var low := w.left;
    var top := Push(Left, w, Top);
    var c := Push(Right, low.right, Push(Right, low, top));
    assert LeafFor(c, low.right.right, 0x3000) == (c, low.right.right);
    assert LeafFor(c.up, low.right, 0x3000) == (c, low.right.right);
    assert LeafFor(top, low, 0x3000) == (c, low.right.right);
    assert LeafFor(Top, w, 0x3000) == (c, low.right.right);
    assert Gapped(c, low.right.right) == Tip(13, Empty(0x1000));
    FirstLoss(f);
    SecondLoss(f);
  }
}
