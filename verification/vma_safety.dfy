/** Which deletions the shared temporary node survives, said of the tree before the deletion. */
module VmaSafety {
  import opened Wrappers
  import opened VmaNodes
  import opened VmaShape
  import opened VmaBalance
  import opened VmaGaps
  import opened VmaLayout
  import opened VmaInsert
  import opened VmaRemove
  import opened VmaJoin
  import opened VmaTemp

  /** A tree as every insertion and every good deletion leaves it. */
  ghost predicate Sane(w: Tree) {
    Good(w) && Distinct(w) && NoAdjacentGaps(Areas(w)) && (Sized(Areas(w)) || NeverInserted(w))
  }

  lemma {:induction false} LeafForFinds(c: Ctx, t: Tree, addr: nat)
    requires Plain(t) && Ordered(Pivots(Plug(c, t))) && LowOf(c) <= addr < HighOf(c)
    ensures var (d, u) := LeafFor(c, t, addr);
      Plug(d, u) == Plug(c, t) && u.Tip? && LowOf(d) <= addr < HighOf(d)
    decreases t
  {
    if t.Fork? {
      var side := if addr < t.pivot then Left else Right;
      LeafForFinds(Push(side, t, c), Child(side, t), addr);
    }
  }

  /** Writing a leaf does not change the way to it. */
  lemma {:induction false} LeafForSame(c: Ctx, t: Tree, d: Ctx, u: Tree, u': Tree, addr: nat)
    requires Plain(t) && LeafFor(c, t, addr) == (d, u) && u'.Tip?
    ensures exists t' :: Plain(t') && Plug(c, t') == Plug(d, u') && LeafFor(c, t', addr) == (d, u')
    decreases t
  {
    if t.Tip? {
      assert Plug(c, u') == Plug(d, u') && LeafFor(c, u', addr) == (d, u');
    } else {
      var side := if addr < t.pivot then Left else Right;
      LeafForSame(Push(side, t, c), Child(side, t), d, u, u', addr);
      var s :| Plain(s) && Plug(Push(side, t, c), s) == Plug(d, u') && LeafFor(Push(side, t, c), s, addr) == (d, u');
      var t' := WithChild(side, t, s);
      assert Push(side, t', c) == Push(side, t, c) && Child(side, t') == s;
      assert Plug(c, t') == Plug(d, u') && LeafFor(c, t', addr) == (d, u');
    }
  }

  lemma LeafForGapped(w: Tree, addr: nat)
    requires Plain(w)
    ensures var (c, t) := LeafFor(Top, w, addr); LeafFor(Top, Plug(c, Gapped(c, t)), addr) == (c, Gapped(c, t))
  {
    var (c, t) := LeafFor(Top, w, addr);
    LeafForSame(Top, w, c, t, Gapped(c, t), addr);
  }

  /** What is written in the segment's leaf does not matter to its deletion. */
  lemma SameFate(temp: Option<Ptr>, w: Tree, addr: nat, leaf: Leaf)
    requires Plain(w)
    ensures var (c, t) := LeafFor(Top, w, addr); DeleteFate(temp, Plug(c, Tip(t.p, leaf)), addr) == DeleteFate(temp, w, addr)
  {
    var (c, t) := LeafFor(Top, w, addr);
    LeafForSame(Top, w, c, t, Tip(t.p, leaf), addr);
  }

  // ----- where joins happen -----

  /** If no branch above the leaf lies between two gaps, there are no neighbouring gaps at all. */
  lemma {:induction false} NoMeeting(c: Ctx, t: Tree, j: nat)
    requires OnlyAround(Areas(Plug(c, t)), j) && Clean(c, t, j) && Meeting(c, t).None?
    ensures NoAdjacentGaps(Areas(Plug(c, t)))
    decreases c
  {
    if c.Step? {
      CleanUp(c, t, j);
      NoMeeting(c.up, Pull(c, t), j);
    }
  }

  lemma {:induction false} MeetingIs(c: Ctx, t: Tree)
    requires Meeting(c, t).Some?
    ensures var (d, p) := Meeting(c, t).value; BetweenGaps(p) && Plug(d, p) == Plug(c, t)
    decreases c
  {
    if !BetweenGaps(Pull(c, t)) {
      MeetingIs(c.up, Pull(c, t));
    }
  }

  lemma GapsMeet(c: Ctx, p: Tree)
    requires BetweenGaps(p)
    ensures !NoAdjacentGaps(Areas(Plug(c, p)))
  {
    AroundPivot(c, p);
    var a, n := Areas(Plug(c, p)), |LeftOf(c, p)|;
    assert a[n].leaf.Empty? && a[n + 1].leaf.Empty?;
  }

  /** The refreshed tree has the leaves and pivots of the tree. */
  lemma RefreshedSame(c: Ctx, t: Tree)
    ensures SameFlat(Plug(c, t), Above(c, t)) && Plug(Refreshed(c, Gap(t)), t) == Above(c, t)
    ensures Areas(Above(c, t)) == Areas(Plug(c, t))
  {
    RefreshedPlug(c, t);
    if c.Step? {
      UpdatedFlat(c.up, Pull(c, t));
    }
    SameAreas(Plug(c, t), Above(c, t));
  }

  // ----- nodes occur once -----

  lemma {:induction false} PlugDistinct(c: Ctx, t: Tree)
    ensures Distinct(Plug(c, t)) <==> Distinct(t) && DistinctC(c) && PtrsC(c) !! Ptrs(t)
    decreases c
  {
    if c.Step? {
      PlugDistinct(c.up, Pull(c, t));
    }
  }

  lemma {:induction false} RefreshedDistinct(c: Ctx, gap: nat)
    ensures PtrsC(Refreshed(c, gap)) == PtrsC(c) && DistinctC(Refreshed(c, gap)) == DistinctC(c)
    decreases c
  {
    if c.Step? {
      RefreshedDistinct(c.up, Max(gap, Gap(c.sib)));
    }
  }

  /** A tree of n leaves has 2n - 1 nodes if and only if none occurs twice. */
  lemma {:induction false} DistinctCount(t: Tree)
    ensures |Ptrs(t)| <= 2 * |Slots(t)| - 1
    ensures Distinct(t) <==> |Ptrs(t)| == 2 * |Slots(t)| - 1
  {
    if t.Fork? {
      DistinctCount(t.left);
      DistinctCount(t.right);
      UnionCount(Ptrs(t.left), Ptrs(t.right));
      UnionCount({t.p}, Ptrs(t.left) + Ptrs(t.right));
      assert Ptrs(t) == {t.p} + (Ptrs(t.left) + Ptrs(t.right));
    }
  }

  lemma UnionCount(a: set<Ptr>, b: set<Ptr>)
    ensures |a + b| <= |a| + |b| && (|a + b| == |a| + |b| <==> a !! b)
  {
    assert |a + b| + |a * b| == |a| + |b|;
    if a !! b {
      assert a * b == {};
    } else {
      var x :| x in a && x in b;
      assert x in a * b;
    }
  }

  lemma SameDistinct(w: Tree, w': Tree)
    requires SameFlat(w, w') && Distinct(w)
    ensures Distinct(w')
  {
    DistinctCount(w);
    DistinctCount(w');
  }

  lemma TargetDistinct(c: Ctx, t: Tree)
    requires t.Fork? && Plain(t) && Distinct(Plug(c, t))
    ensures Distinct(Plug(TargetCtx(c, t), Target(t)))
  {
    if !HasLeafChild(t) {
      var r := Repivoted(t);
      PlugMin(t.right, Push(Right, r, c));
      assert Pull(Push(Right, r, c), t.right) == r;
      PlugDistinct(c, t);
      PlugDistinct(c, r);
    }
  }

  /** A removal that ends well leaves no node twice. */
  lemma RemovedDistinct(c: Ctx, t: Tree, k: Ptr, w: Tree)
    requires t.Fork? && Plain(t) && Distinct(Plug(c, t)) && RemoveFate(Some(k), c, t).Fine?
    requires Target(t).color.Red? ==> Target(t).left.Tip? && Target(t).right.Tip?
    requires SameFlat(Plug(TargetCtx(c, t), Lone(Target(t), Moved(Target(t), k).p)), w)
    ensures Distinct(w)
  {
    var cx, st := TargetCtx(c, t), Target(t);
    var lone := Lone(st, Moved(st, k).p);
    TargetDistinct(c, t);
    PlugDistinct(cx, st);
    TargetPtrs(c, t);
    PlugDistinct(cx, lone);
    SameDistinct(Plug(cx, lone), w);
  }

  // ----- a tree with a gap to be joined -----

  /** All is in order but for the gap at place `n`, which holds `addr` and may lie beside others. */
  ghost predicate Pending(w: Tree, n: nat, q: Ptr, addr: nat) {
    && Balanced(w) && TreeColor(w).Black? && ExactOff(w, q) && Distinct(w) && Ordered(Pivots(w))
    && addr < END && Joining(w, n, q, addr)
  }

  /** The branch at which the loop joins next. */
  ghost function NextJoin(w: Tree, addr: nat): Option<(Ctx, Tree)> {
    var (c, t) := LeafFor(Top, w, addr);
    Meeting(Refreshed(c, Gap(t)), t)
  }

  lemma PendingFocus(w: Tree, n: nat, q: Ptr, addr: nat)
    requires Pending(w, n, q, addr)
    ensures var (c, t) := LeafFor(Top, w, addr);
      && Plug(c, t) == w && t.Tip? && t.leaf.Empty? && t.p == q && q !in PtrsC(c) && n == |SlotsBefore(c)|
      && Fits(c, 0, Black) && TopColor(c, Black).Black? && ExactC(c)
  {
    BalancedPlain(w);
    LeafForFinds(Top, w, addr);
    var (c, t) := LeafFor(Top, w, addr);
    FoundArea(c, t, n, addr);
    PlugDistinct(c, t);
    PlugBalanced(c, t);
    PlugOff(c, t, q);
    OffIsExactC(c, q);
  }

  /** The gap joins further exactly if it lies beside another one. */
  lemma NextJoinIff(w: Tree, n: nat, q: Ptr, addr: nat)
    requires Pending(w, n, q, addr)
    ensures NextJoin(w, addr).None? <==> NoAdjacentGaps(Areas(w))
  {
    PendingFocus(w, n, q, addr);
    var (c, t) := LeafFor(Top, w, addr);
    RefreshedSame(c, t);
    if NextJoin(w, addr).Some? {
      MeetingIs(Refreshed(c, Gap(t)), t);
      var (d, p) := NextJoin(w, addr).value;
      GapsMeet(d, p);
    } else {
      RefreshedFlat(c, Gap(t));
      NoMeeting(Refreshed(c, Gap(t)), t, n);
    }
  }

  /** A branch between two gaps, ready to be joined at, with the gap at place `n` one of them. */
  ghost predicate JoinAhead(d: Ctx, p: Tree, n: nat, q: Ptr, addr: nat) {
    Joinable(d, p) && Distinct(Plug(d, p)) && addr < END && Joining(Plug(d, p), n, q, addr)
  }

  lemma NextJoinReady(w: Tree, n: nat, q: Ptr, addr: nat)
    requires Pending(w, n, q, addr) && NextJoin(w, addr).Some?
    ensures var (d, p) := NextJoin(w, addr).value; JoinAhead(d, p, n, q, addr) && SameFlat(w, Plug(d, p))
  {
    PendingFocus(w, n, q, addr);
    var (c, t) := LeafFor(Top, w, addr);
    RefreshedSame(c, t);
    MeetingIs(Refreshed(c, Gap(t)), t);
    var (d, p) := NextJoin(w, addr).value;
    RefreshedGood(c, t);
    FocusReady(d, p);
    SameDistinct(w, Plug(d, p));
    PlugDistinct(d, p);
  }

  // ----- one join -----

  /** The tree after a join that ends well. */
  lemma AfterJoin(k: Ptr, d: Ctx, p: Tree, n: nat, q: Ptr, addr: nat)
    requires JoinAhead(d, p, n, q, addr) && RemoveFate(Some(k), d, Combined(p)).Fine?
    ensures var w, q' := Removed(d, Combined(p), k), Keeper(Combined(p), Moved(Target(Combined(p)), k).p);
      Pending(w, |LeftOf(d, p)|, q', addr) && |Slots(w)| < |Slots(Plug(d, p))|
    ensures Areas(Removed(d, Combined(p), k)) == LeftOf(d, p) + [JoinedArea(d, p)] + RightOf(d, p)
  {
    var t, w := Combined(p), Removed(d, Combined(p), k);
    var q' := Keeper(t, Moved(Target(t), k).p);
    AfterCombined(k, d, p);
    DistinctRemoved(k, d, p);
    JoinedStep(d, p, w, n, q, q', addr);
  }

  lemma AfterCombined(k: Ptr, d: Ctx, p: Tree)
    requires Joinable(d, p)
    ensures var w, q' := Removed(d, Combined(p), k), Keeper(Combined(p), Moved(Target(Combined(p)), k).p);
      && Balanced(w) && TreeColor(w).Black? && ExactOff(w, q') && HeldBy(w, |LeftOf(d, p)|, q')
      && Areas(w) == LeftOf(d, p) + [JoinedArea(d, p)] + RightOf(d, p)
  {
    var t, w := Combined(p), Removed(d, Combined(p), k);
    CombinedReady(d, p);
    BalancedPlain(p);
    AfterRemoval(d, t, k);
    JoinedAreas(d, p, Empty(LastLeaf(p.left).leaf.size + FirstLeaf(p.right).leaf.size), Moved(Target(t), k).p, w);
  }

  lemma AfterRemoval(d: Ctx, t: Tree, k: Ptr)
    requires Removable(d, t)
    ensures var w, k' := Removed(d, t, k), Moved(Target(t), k).p;
      && Balanced(w) && TreeColor(w).Black? && ExactOff(w, Keeper(t, k'))
      && SameFlat(Plug(TargetCtx(d, t), Lone(Target(t), k')), w)
  {
    RemovedTree(d, t, k);
  }

  lemma DistinctRemoved(k: Ptr, d: Ctx, p: Tree)
    requires Joinable(d, p) && Distinct(Plug(d, p)) && RemoveFate(Some(k), d, Combined(p)).Fine?
    ensures Distinct(Removed(d, Combined(p), k))
  {
    var t := Combined(p);
    CombinedReady(d, p);
    TargetReady(d, t);
    RemovedFlat(d, t, k);
    PlugDistinct(d, p);
    PlugDistinct(d, t);
    RemovedDistinct(d, t, k, Removed(d, t, k));
  }

  /** The shared node is linked afterwards exactly if it was before or was taken. */
  lemma LinkedAfterJoin(k: Ptr, d: Ctx, p: Tree)
    requires Joinable(d, p) && RemoveFate(Some(k), d, Combined(p)).Fine? && k !in ForksC(d) + Forks(p)
    ensures k in Ptrs(Removed(d, Combined(p), k)) <==> k in PtrsC(d) + Ptrs(p) || Takes(Target(Combined(p)))
  {
    var t, w := Combined(p), Removed(d, Combined(p), k);
    var st, k' := Target(t), Moved(Target(t), k).p;
    CombinedReady(d, p);
    TargetReady(d, t);
    RemovedFlat(d, t, k);
    TargetPtrs(d, t);
    TargetForks(d, t);
    PlugPtrs(TargetCtx(d, t), Lone(st, k'));
  }

  /** The join, and whatever follows it. */
  lemma JoinThenLoop(k: Ptr, m: nat, d: Ctx, p: Tree, n: nat, q: Ptr, addr: nat)
    requires JoinAhead(d, p, n, q, addr) && |Slots(Plug(d, p))| <= m
    ensures JoinRunWithin(k, m, d, p, addr).fate
      == if RemoveFate(Some(k), d, Combined(p)).Fine? then LoopRun(k, Removed(d, Combined(p), k), addr).fate
         else RemoveFate(Some(k), d, Combined(p))
  {
    if RemoveFate(Some(k), d, Combined(p)).Fine? {
      AfterJoin(k, d, p, n, q, addr);
    }
  }

  lemma LoopFate(k: Ptr, w: Tree, n: nat, q: Ptr, addr: nat)
    requires Pending(w, n, q, addr)
    ensures match NextJoin(w, addr)
      case None => LoopRun(k, w, addr).fate.Fine?
      case Some((d, p)) =>
        && BetweenGaps(p)
        && LoopRun(k, w, addr).fate
          == if RemoveFate(Some(k), d, Combined(p)).Fine? then LoopRun(k, Removed(d, Combined(p), k), addr).fate
             else RemoveFate(Some(k), d, Combined(p))
  {
    if NextJoin(w, addr).Some? {
      NextJoinReady(w, n, q, addr);
      var (d, p) := NextJoin(w, addr).value;
      JoinThenLoop(k, |Slots(w)|, d, p, n, q, addr);
    }
  }

  // ----- gaps beside a gap -----

  ghost predicate GapAt(a: seq<Area>, i: int) {
    0 <= i < |a| && a[i].leaf.Empty?
  }

  ghost predicate BothSides(a: seq<Area>, j: int) {
    GapAt(a, j - 1) && GapAt(a, j + 1)
  }

  lemma BesideIff(a: seq<Area>, j: nat)
    requires j < |a| && a[j].leaf.Empty? && OnlyAround(a, j)
    ensures NoAdjacentGaps(a) <==> !GapAt(a, j - 1) && !GapAt(a, j + 1)
  {
    if GapAt(a, j - 1) {
      assert a[j - 1].leaf.Empty? && a[j - 1 + 1].leaf.Empty?;
    }
    if GapAt(a, j + 1) {
      assert a[j].leaf.Empty? && a[j + 1].leaf.Empty?;
    }
  }

  /** A join uses up one of the gaps beside the gap at `j`; the joined gap is not between two again. */
  lemma OneGapLess(a: seq<Area>, j: nat, x: seq<Area>, u: Area, v: Area, y: seq<Area>, b: seq<Area>, g: Area)
    requires j < |a| && a[j].leaf.Empty? && OnlyAround(a, j)
    requires a == x + [u, v] + y && u.leaf.Empty? && v.leaf.Empty? && b == x + [g] + y && g.leaf.Empty?
    ensures NoAdjacentGaps(b) <==> !BothSides(a, j)
    ensures !BothSides(b, |x|)
  {
    var n := |x|;
    assert a[n] == u && a[n + 1] == v;
    assert n == j || n + 1 == j;
    assert forall i | 0 <= i < n :: b[i] == a[i];
    assert forall i | n < i < |b| :: b[i] == a[i + 1];
    assert OnlyAround(b, n) by {
      forall i | 0 <= i < |b| - 1 && i != n && i + 1 != n
        ensures b[i].leaf.Used? || b[i + 1].leaf.Used?
      {
        assert i < n ==> a[i].leaf.Used? || a[i + 1].leaf.Used?;
        assert i > n ==> a[i + 1].leaf.Used? || a[i + 1 + 1].leaf.Used?;
      }
    }
    BesideIff(b, n);
    assert n == j && n + 2 < |a| ==> a[n + 1 + 1].leaf.Used?;
    assert n != j && n > 0 ==> a[n - 1].leaf.Used?;
  }

  // ----- a deletion -----

  /** The branch of the first join when the segment at `addr` is deleted from `w`. */
  ghost function FirstJoin(w: Tree, addr: nat): Option<(Ctx, Tree)> {
    var (c, t) := LeafFor(Top, w, addr);
    if c.Top? then None
    else if c.sib.Tip? && c.sib.leaf.Empty? then Some((c.up, Pull(c, Gapped(c, t))))
    else Meeting(Refreshed(c, Gap(Gapped(c, t))), Gapped(c, t))
  }

  /** The branch of the second join, after a first one that ended well. */
  ghost function SecondJoin(k: Ptr, w: Tree, addr: nat): Option<(Ctx, Tree)> {
    match FirstJoin(w, addr)
    case None => None
    case Some((d, p)) => if BetweenGaps(p) then NextJoin(Removed(d, Combined(p), k), addr) else None
  }

  /** Segment `j` of the tree holds the address. */
  ghost predicate InSegment(w: Tree, j: nat, addr: nat) {
    j < |Areas(w)| && Areas(w)[j].lo <= addr < Areas(w)[j].hi && Areas(w)[j].leaf.Used?
  }

  /** The tree in which segment `j` has just become a gap. */
  lemma FreedFrom(w: Tree, addr: nat, j: nat)
    requires Sane(w) && InSegment(w, j, addr)
    ensures var (c, t) := LeafFor(Top, w, addr);
      && Plug(c, t) == w && t.Tip? && Pending(Plug(c, Gapped(c, t)), j, t.p, addr) && ExactC(c)
      && Areas(Plug(c, Gapped(c, t))) == Areas(w)[j := Area(LowOf(c), HighOf(c), Gapped(c, t).leaf)]
  {
    SegmentLeaf(w, addr, j);
    var (c, t) := LeafFor(Top, w, addr);
    FreedLeaf(c, t, j, addr);
    OtherTip(c, t, Gapped(c, t));
  }

  lemma FreedLeaf(c: Ctx, t: Tree, j: nat, addr: nat)
    requires Sane(Plug(c, t)) && t.Tip? && t.leaf.Used? && j == |SlotsBefore(c)| && LowOf(c) <= addr < HighOf(c) && addr < END
    ensures Pending(Plug(c, Gapped(c, t)), j, t.p, addr) && ExactC(c)
  {
    var t' := Gapped(c, t);
    FreedTree(c, t, addr);
    assert Distinct(Plug(c, t')) by {
      PlugDistinct(c, t);
      PlugDistinct(c, t');
    }
    assert Balanced(Plug(c, t')) && TreeColor(Plug(c, t')).Black? by {
      PlugBalanced(c, t);
      PlugBalanced(c, t');
    }
    PlugExact(c, t);
    ExactIsOffC(c, t.p);
    ReplaceOff(c, t', t.p);
  }

  lemma OtherTip(c: Ctx, t: Tree, t': Tree)
    requires t.Tip? && t'.Tip?
    ensures |SlotsBefore(c)| < |Areas(Plug(c, t))|
    ensures Areas(Plug(c, t')) == Areas(Plug(c, t))[|SlotsBefore(c)| := Area(LowOf(c), HighOf(c), t'.leaf)]
  {
    FocusTip(c, t);
    FocusTip(c, t');
    Exchange(AreasBefore(c), Area(LowOf(c), HighOf(c), t.leaf), Area(LowOf(c), HighOf(c), t'.leaf), AreasAfter(c));
  }

  lemma Exchange<T>(b: seq<T>, x: T, y: T, a: seq<T>)
    ensures (b + [x] + a)[|b| := y] == b + [y] + a
  {
  }

  /** The leaf of an address in segment `j`. */
  lemma SegmentLeaf(w: Tree, addr: nat, j: nat)
    requires Sane(w) && InSegment(w, j, addr)
    ensures var (c, t) := LeafFor(Top, w, addr);
      && Plug(c, t) == w && t.Tip? && t.leaf.Used? && j == |SlotsBefore(c)| && LowOf(c) <= addr < HighOf(c) && addr < END
  {
    BalancedPlain(w);
    OrderedTiled(w);
    TiledEnd(Areas(w), j);
    LeafForFinds(Top, w, addr);
    var (c, t) := LeafFor(Top, w, addr);
    FoundArea(c, t, j, addr);
  }

  lemma TiledEnd(a: seq<Area>, j: nat)
    requires Tiled(a) && j < |a|
    ensures a[j].hi <= END
  {
    if j < |a| - 1 {
      TiledOrder(a, j, |a| - 1);
    }
  }

  /** A sibling that is a gap is joined before the loop; it counts as the first join. */
  lemma SiblingAhead(c: Ctx, t: Tree, j: nat, addr: nat)
    requires c.Step? && t.Tip? && t.leaf.Empty? && c.sib.Tip? && c.sib.leaf.Empty?
    requires Pending(Plug(c, t), j, t.p, addr) && ExactC(c)
    ensures JoinAhead(c.up, Pull(c, t), j, t.p, addr)
  {
    PlugBalanced(c, t);
    SiblingReady(c, t);
    PlugDistinct(c.up, Pull(c, t));
  }

  /** The first join of a deletion: there is one exactly if the segment lies beside a gap. */
  lemma FirstJoinIs(w: Tree, addr: nat, j: nat)
    requires Sane(w) && InSegment(w, j, addr)
    ensures FirstJoin(w, addr).None? <==> !GapAt(Areas(w), j - 1) && !GapAt(Areas(w), j + 1)
    ensures match FirstJoin(w, addr)
      case None => true
      case Some((d, p)) => var (c, t) := LeafFor(Top, w, addr);
        && JoinAhead(d, p, j, t.p, addr) && SameFlat(Plug(c, Gapped(c, t)), Plug(d, p))
        && Ptrs(Plug(d, p)) == Ptrs(w) && Forks(Plug(d, p)) == Forks(w)
  {
    FreedFrom(w, addr, j);
    var (c, t) := LeafFor(Top, w, addr);
    var t' := Gapped(c, t);
    var w' := Plug(c, t');
    BesideIff(Areas(w'), j);
    BalancedPlain(w);
    LeafForGapped(w, addr);
    NextJoinIff(w', j, t.p, addr);
    assert Ptrs(w') == Ptrs(w) && Forks(w') == Forks(w) by {
      PlugPtrs(c, t);
      PlugPtrs(c, t');
      PlugForks(c, t);
      PlugForks(c, t');
    }
    if c.Step? && c.sib.Tip? && c.sib.leaf.Empty? {
      SiblingAhead(c, t', j, addr);
      GapsMeet(c.up, Pull(c, t'));
    } else if NextJoin(w', addr).Some? {
      NextJoinReady(w', j, t.p, addr);
    }
  }

  /** How a deletion ends, from its first join on. */
  lemma DeleteFromFirst(k: Ptr, w: Tree, addr: nat, j: nat)
    requires Sane(w) && InSegment(w, j, addr)
    ensures match FirstJoin(w, addr)
      case None => DeleteRun(k, w, addr).fate.Fine?
      case Some((d, p)) =>
        && BetweenGaps(p)
        && DeleteRun(k, w, addr).fate
          == if RemoveFate(Some(k), d, Combined(p)).Fine? then LoopRun(k, Removed(d, Combined(p), k), addr).fate
             else RemoveFate(Some(k), d, Combined(p))
  {
    FirstJoinIs(w, addr, j);
    FreedFrom(w, addr, j);
    BalancedPlain(w);
    LeafForGapped(w, addr);
    var (c, t) := LeafFor(Top, w, addr);
    var w' := Plug(c, Gapped(c, t));
    if FirstJoin(w, addr).Some? {
      var (d, p) := FirstJoin(w, addr).value;
      JoinThenLoop(k, |Slots(w')|, d, p, j, t.p, addr);
    } else if c.Step? {
      LoopFate(k, w', j, t.p, addr);
    }
  }

  /** What the first join leaves: a second join exactly if the segment lay between two gaps, and no third. */
  lemma SecondJoinIs(k: Ptr, w: Tree, addr: nat, j: nat)
    requires Sane(w) && InSegment(w, j, addr) && FirstJoin(w, addr).Some?
    requires BetweenGaps(FirstJoin(w, addr).value.1)
    requires var (d, p) := FirstJoin(w, addr).value; RemoveFate(Some(k), d, Combined(p)).Fine?
    ensures SecondJoin(k, w, addr).Some? <==> BothSides(Areas(w), j)
    ensures var (d, p) := FirstJoin(w, addr).value; var w1 := Removed(d, Combined(p), k);
      match SecondJoin(k, w, addr)
      case None => LoopRun(k, w1, addr).fate.Fine?
      case Some((d2, p2)) =>
        BetweenGaps(p2) && PtrsC(d2) + Ptrs(p2) == Ptrs(w1) && LoopRun(k, w1, addr).fate == RemoveFate(Some(k), d2, Combined(p2))
  {
    FirstJoinIs(w, addr, j);
    var (c, t) := LeafFor(Top, w, addr);
    var (d, p) := FirstJoin(w, addr).value;
    var w1, n, q := Removed(d, Combined(p), k), |LeftOf(d, p)|, Keeper(Combined(p), Moved(Target(Combined(p)), k).p);
    AfterJoin(k, d, p, j, t.p, addr);
    assert (NoAdjacentGaps(Areas(w1)) <==> !BothSides(Areas(w), j)) && !BothSides(Areas(w1), n) by {
      FreedFrom(w, addr, j);
      SameAreas(Plug(c, Gapped(c, t)), Plug(d, p));
      AfterFirst(d, p, j, t.p, addr, w1);
    }
    NextJoinIff(w1, n, q, addr);
    LoopFate(k, w1, n, q, addr);
    if NextJoin(w1, addr).Some? {
      NextJoinReady(w1, n, q, addr);
      var (d2, p2) := NextJoin(w1, addr).value;
      PlugPtrs(d2, p2);
      if RemoveFate(Some(k), d2, Combined(p2)).Fine? {
        SameAreas(w1, Plug(d2, p2));
        LastJoin(k, d2, p2, n, q, addr);
      }
    }
  }

  lemma AfterFirst(d: Ctx, p: Tree, j: nat, q: Ptr, addr: nat, w: Tree)
    requires JoinAhead(d, p, j, q, addr) && Areas(w) == LeftOf(d, p) + [JoinedArea(d, p)] + RightOf(d, p)
    ensures NoAdjacentGaps(Areas(w)) <==> !BothSides(Areas(Plug(d, p)), j)
    ensures !BothSides(Areas(w), |LeftOf(d, p)|)
  {
    AroundPivot(d, p);
    OneGapLess(Areas(Plug(d, p)), j, LeftOf(d, p), LastArea(d, p), FirstArea(d, p), RightOf(d, p), Areas(w), JoinedArea(d, p));
  }

  /** After a join beside one gap the loop ends. */
  lemma LastJoin(k: Ptr, d: Ctx, p: Tree, n: nat, q: Ptr, addr: nat)
    requires JoinAhead(d, p, n, q, addr) && RemoveFate(Some(k), d, Combined(p)).Fine?
    requires !BothSides(Areas(Plug(d, p)), n)
    ensures LoopRun(k, Removed(d, Combined(p), k), addr).fate.Fine?
  {
    var w, q' := Removed(d, Combined(p), k), Keeper(Combined(p), Moved(Target(Combined(p)), k).p);
    AfterJoin(k, d, p, n, q, addr);
    AfterFirst(d, p, n, q, addr, w);
    NextJoinIff(w, |LeftOf(d, p)|, q', addr);
    LoopFate(k, w, |LeftOf(d, p)|, q', addr);
  }

  // ----- which deletions end well -----

  /** The removal at `p` does not harm the shared node: it is not written while linked, and not freed. */
  ghost predicate Survives(k: Ptr, linked: bool, p: Tree)
    requires BetweenGaps(p)
  {
    var st := Target(Combined(p));
    if Takes(st) then !linked else Dropped(st) != k
  }

  /**
   * The condition for a deletion with shared node `k`: each of its at most two joins spares the node.
   * The second join finds it linked if the tree had it or the first join took it.
   */
  ghost predicate SafeToDelete(k: Ptr, w: Tree, addr: nat) {
    match FirstJoin(w, addr)
    case None => true
    case Some((_, p)) =>
      && BetweenGaps(p) && Survives(k, k in Ptrs(w), p)
      && match SecondJoin(k, w, addr)
         case None => true
         case Some((_, p2)) => BetweenGaps(p2) && Survives(k, k in Ptrs(w) || Takes(Target(Combined(p))), p2)
  }

  lemma SurvivesIff(k: Ptr, d: Ctx, p: Tree)
    requires BetweenGaps(p)
    ensures RemoveFate(Some(k), d, Combined(p)).Fine? <==> Survives(k, k in PtrsC(d) + Ptrs(p), p)
  {
    CombinedPtrs(p);
  }

  lemma CombinedPtrs(p: Tree)
    requires BetweenGaps(p)
    ensures Ptrs(Combined(p)) == Ptrs(p)
  {
    var leaf := Empty(LastLeaf(p.left).leaf.size + FirstLeaf(p.right).leaf.size);
    SetLastKeeps(p.left, leaf);
    SetFirstKeeps(p.right, leaf);
  }

  /**
   * How every deletion ends. It joins once for each gap beside the segment. A join that ends badly is how
   * the deletion ends; otherwise the deletion ends well.
   */
  lemma DeleteDecided(k: Ptr, w: Tree, addr: nat, j: nat)
    requires Sane(w) && InSegment(w, j, addr)
    ensures FirstJoin(w, addr).None? <==> !GapAt(Areas(w), j - 1) && !GapAt(Areas(w), j + 1)
    ensures match FirstJoin(w, addr)
      case None => DeleteFate(Some(k), w, addr).Fine?
      case Some((d, p)) =>
        && BetweenGaps(p) && PtrsC(d) + Ptrs(p) == Ptrs(w)
        && if !RemoveFate(Some(k), d, Combined(p)).Fine? then DeleteFate(Some(k), w, addr) == RemoveFate(Some(k), d, Combined(p))
           else
             && (SecondJoin(k, w, addr).Some? <==> BothSides(Areas(w), j))
             && match SecondJoin(k, w, addr)
                case None => DeleteFate(Some(k), w, addr).Fine?
                case Some((d2, p2)) =>
                  && BetweenGaps(p2) && PtrsC(d2) + Ptrs(p2) == Ptrs(Removed(d, Combined(p), k))
                  && DeleteFate(Some(k), w, addr) == RemoveFate(Some(k), d2, Combined(p2))
  {
    FirstJoinIs(w, addr, j);
    DeleteFromFirst(k, w, addr, j);
    if FirstJoin(w, addr).Some? {
      var (d, p) := FirstJoin(w, addr).value;
      PlugPtrs(d, p);
      if RemoveFate(Some(k), d, Combined(p)).Fine? {
        SecondJoinIs(k, w, addr, j);
      }
    }
  }

  /** A deletion ends well if and only if the tree and the address are safe. */
  lemma DeleteFineIff(k: Ptr, w: Tree, addr: nat, j: nat)
    requires Sane(w) && InSegment(w, j, addr) && LeafOnly(Some(k), w)
    ensures DeleteFate(Some(k), w, addr).Fine? <==> SafeToDelete(k, w, addr)
  {
    DeleteDecided(k, w, addr, j);
    FirstJoinIs(w, addr, j);
    if FirstJoin(w, addr).Some? {
      var (d, p) := FirstJoin(w, addr).value;
      SurvivesIff(k, d, p);
      if RemoveFate(Some(k), d, Combined(p)).Fine? {
        PlugForks(d, p);
        LinkedAfterJoin(k, d, p);
        if SecondJoin(k, w, addr).Some? {
          var (d2, p2) := SecondJoin(k, w, addr).value;
          SurvivesIff(k, d2, p2);
        }
      }
    }
  }

  /** The same for the segments of a tree; without a shared node every deletion ends well. */
  lemma SafeIff(temp: Option<Ptr>, w: Tree, addr: nat)
    requires Sane(w) && LeafOnly(temp, w) && exists s | s in Segments(Areas(w)) :: Contains(s, addr)
    ensures DeleteFate(temp, w, addr).Fine? <==> temp.None? || SafeToDelete(temp.value, w, addr)
  {
    if temp.Some? {
      var s :| s in Segments(Areas(w)) && Contains(s, addr);
      var u :| u in Areas(w) && u.leaf.Used? && SegmentOf(u) == s;
      var j :| 0 <= j < |Areas(w)| && Areas(w)[j] == u;
      DeleteFineIff(temp.value, w, addr, j);
    }
  }

  /**
   * With the shared node not linked, a deletion ends well beside at most one gap. Between two gaps it
   * ends well exactly if the first join does not take the node, or the second neither takes nor frees it.
   */
  lemma UnlinkedDelete(k: Ptr, w: Tree, addr: nat, j: nat)
    requires Sane(w) && InSegment(w, j, addr) && k !in Ptrs(w)
    ensures !BothSides(Areas(w), j) ==> DeleteFate(Some(k), w, addr).Fine?
    ensures BothSides(Areas(w), j) ==>
      match (FirstJoin(w, addr), SecondJoin(k, w, addr))
      case (Some((_, p)), Some((_, p2))) =>
        && BetweenGaps(p) && BetweenGaps(p2)
        && var first, second := Target(Combined(p)), Target(Combined(p2));
           DeleteFate(Some(k), w, addr).Fine? <==> !Takes(first) || (!Takes(second) && Dropped(second) != k)
      case _ => false
  {
    DeleteDecided(k, w, addr, j);
    FirstJoinIs(w, addr, j);
    if FirstJoin(w, addr).Some? {
      var (d, p) := FirstJoin(w, addr).value;
      DroppedIn(d, p);
      ForksIn(Plug(d, p));
      PlugForks(d, p);
      LinkedAfterJoin(k, d, p);
      if SecondJoin(k, w, addr).Some? {
        var (d2, p2) := SecondJoin(k, w, addr).value;
        DroppedIn(d2, p2);
      }
    }
  }

  lemma {:induction false} ForksIn(t: Tree)
    ensures Forks(t) <= Ptrs(t)
  {
    if t.Fork? {
      ForksIn(t.left);
      ForksIn(t.right);
    }
  }

  lemma DroppedIn(d: Ctx, p: Tree)
    requires BetweenGaps(p)
    ensures Dropped(Target(Combined(p))) in PtrsC(d) + Ptrs(p) && Ptrs(Combined(p)) == Ptrs(p)
  {
    CombinedPtrs(p);
    TargetPtrs(d, Combined(p));
    assert Dropped(Target(Combined(p))) in Ptrs(Target(Combined(p)));
  }

  // ----- how a free range lies in its gap -----

  lemma SegmentIn(c: Ctx, t: Tree)
    requires t.Tip? && t.leaf.Used? && LowOf(c) < HighOf(c)
    ensures Segment(LowOf(c), HighOf(c) - LowOf(c), t.leaf.flags) in Segments(Areas(Plug(c, t)))
  {
    var x := Area(LowOf(c), HighOf(c), t.leaf);
    FocusTip(c, t);
    assert Areas(Plug(c, t))[|AreasBefore(c)|] == x;
    assert x in Areas(Plug(c, t)) && SegmentOf(x) == Segment(LowOf(c), HighOf(c) - LowOf(c), t.leaf.flags);
  }

  lemma NoSegmentIn(c: Ctx, t: Tree, addr: nat)
    requires t.Tip? && t.leaf.Empty? && Ordered(Pivots(Plug(c, t))) && LowOf(c) <= addr < HighOf(c)
    ensures forall s | s in Segments(Areas(Plug(c, t))) :: !Contains(s, addr)
  {
    forall s | s in Segments(Areas(Plug(c, t)))
      ensures !Contains(s, addr)
    {
      if Contains(s, addr) {
        FoundSegment(c, t, addr);
        assert false;
      }
    }
  }

  /** The gap goes on exactly where the next address is free: gaps end at segments or at the range's ends. */
  lemma GapSides(c: Ctx, t: Tree, start: nat, len: nat)
    requires t.Tip? && t.leaf.Empty? && Ordered(Pivots(Plug(c, t))) && NoAdjacentGaps(Areas(Plug(c, t)))
    requires LowOf(c) <= start && start + len <= HighOf(c) && len > 0
    ensures NodesNeeded(Segments(Areas(Plug(c, t))), start, len) == SplitNodes(LowOf(c) < start, start + len < HighOf(c))
  {
    var a, n := Areas(Plug(c, t)), |AreasBefore(c)|;
    OrderedTiled(Plug(c, t));
    FocusTip(c, t);
    assert a[n] == Area(LowOf(c), HighOf(c), t.leaf);
    TiledEnd(a, n);
    if LowOf(c) < start {
      NoSegmentIn(c, t, start - 1);
    } else if start > 0 {
      assert n > 0;
      UsedBeside(a, n, n - 1, start - 1);
    }
    if start + len < HighOf(c) {
      NoSegmentIn(c, t, start + len);
    } else if start + len < END {
      assert n + 1 < |a|;
      UsedBeside(a, n, n + 1, start + len);
    }
  }

  lemma UsedBeside(a: seq<Area>, n: nat, m: nat, addr: nat)
    requires Tiled(a) && NoAdjacentGaps(a) && n < |a| && m < |a| && a[n].leaf.Empty?
    requires (m + 1 == n && addr + 1 == a[n].lo) || (n + 1 == m && addr == a[n].hi)
    ensures !FreeAt(Segments(a), addr)
  {
    if m + 1 == n {
      assert a[m].hi == a[m + 1].lo;
    } else {
      assert a[n].hi == a[n + 1].lo;
    }
    assert SegmentOf(a[m]) in Segments(a) && Contains(SegmentOf(a[m]), addr);
  }
}
