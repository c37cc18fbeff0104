/** Joining neighbouring gaps after a segment has been turned into one. */
module VmaJoin {
  import opened Wrappers
  import opened VmaNodes
  import opened VmaShape
  import opened VmaBalance
  import opened VmaGaps
  import opened VmaLayout
  import opened VmaInsert
  import opened VmaRemove

  // ----- writing the outermost leaves of a subtree -----

  function SetLast(t: Tree, leaf: Leaf): Tree {
    if t.Tip? then Tip(t.p, leaf) else t.(right := SetLast(t.right, leaf))
  }

  function SetFirst(t: Tree, leaf: Leaf): Tree {
    if t.Tip? then Tip(t.p, leaf) else t.(left := SetFirst(t.left, leaf))
  }

  lemma {:induction false} ZipSetLast(s: Store, root: Ptr, c: Ctx, t: Tree, leaf: Leaf)
    requires Zip(s, root, c, t) && Plain(t)
    ensures Zip(s[LastLeaf(t).p := LeafNode(leaf)], root, c, SetLast(t, leaf))
    decreases t
  {
    if t.Tip? {
      ZipSetLeaf(s, root, c, t, leaf);
    } else {
      var s' := s[LastLeaf(t).p := LeafNode(leaf)];
      ZipDown(s, root, c, t, Right);
      ZipSetLast(s, root, Push(Right, t, c), t.right, leaf);
      ZipUp(s', root, Push(Right, t, c), SetLast(t.right, leaf));
    }
  }

  lemma {:induction false} ZipSetFirst(s: Store, root: Ptr, c: Ctx, t: Tree, leaf: Leaf)
    requires Zip(s, root, c, t) && Plain(t)
    ensures Zip(s[FirstLeaf(t).p := LeafNode(leaf)], root, c, SetFirst(t, leaf))
    decreases t
  {
    if t.Tip? {
      ZipSetLeaf(s, root, c, t, leaf);
    } else {
      var s' := s[FirstLeaf(t).p := LeafNode(leaf)];
      ZipDown(s, root, c, t, Left);
      ZipSetFirst(s, root, Push(Left, t, c), t.left, leaf);
      ZipUp(s', root, Push(Left, t, c), SetFirst(t.left, leaf));
    }
  }

  lemma {:induction false} SetLastKeeps(t: Tree, leaf: Leaf)
    ensures var t' := SetLast(t, leaf);
      && t'.p == t.p && Ptrs(t') == Ptrs(t) && LastLeaf(t') == Tip(LastLeaf(t).p, leaf)
      && BlackHeight(t') == BlackHeight(t) && Balanced(t') == Balanced(t) && TreeColor(t') == TreeColor(t)
      && t'.Fork? == t.Fork? && (Plain(t) ==> Plain(t')) && |Slots(t')| == |Slots(t)| && Pivots(t') == Pivots(t)
    ensures Exact(t) ==> ExactOff(SetLast(t, leaf), LastLeaf(t).p)
  {
    LeafInPtrs(t);
    if t.Fork? {
      SetLastKeeps(t.right, leaf);
      if Exact(t) {
        ExactIsOff(t.left, LastLeaf(t).p);
      }
    }
  }

  lemma {:induction false} SetFirstKeeps(t: Tree, leaf: Leaf)
    ensures var t' := SetFirst(t, leaf);
      && t'.p == t.p && Ptrs(t') == Ptrs(t) && FirstLeaf(t') == Tip(FirstLeaf(t).p, leaf)
      && BlackHeight(t') == BlackHeight(t) && Balanced(t') == Balanced(t) && TreeColor(t') == TreeColor(t)
      && t'.Fork? == t.Fork? && (Plain(t) ==> Plain(t')) && |Slots(t')| == |Slots(t)| && Pivots(t') == Pivots(t)
    ensures Exact(t) ==> ExactOff(SetFirst(t, leaf), FirstLeaf(t).p)
  {
    LeafInPtrs(t);
    if t.Fork? {
      SetFirstKeeps(t.left, leaf);
      if Exact(t) {
        ExactIsOff(t.right, FirstLeaf(t).p);
      }
    }
  }

  lemma {:induction false} SetLastAreas(t: Tree, leaf: Leaf, lo: nat, hi: nat)
    ensures var a := AreasIn(t, lo, hi);
      AreasIn(SetLast(t, leaf), lo, hi) == a[..|a| - 1] + [a[|a| - 1].(leaf := leaf)]
  {
    if t.Fork? {
      SetLastAreas(t.right, leaf, t.pivot, hi);
      var x, y := AreasIn(t.left, lo, t.pivot), AreasIn(t.right, t.pivot, hi);
      assert (x + y)[..|x| + |y| - 1] == x + y[..|y| - 1];
    }
  }

  lemma {:induction false} SetFirstAreas(t: Tree, leaf: Leaf, lo: nat, hi: nat)
    ensures var a := AreasIn(t, lo, hi);
      AreasIn(SetFirst(t, leaf), lo, hi) == [a[0].(leaf := leaf)] + a[1..]
  {
    if t.Fork? {
      SetFirstAreas(t.left, leaf, lo, t.pivot);
      var x, y := AreasIn(t.left, lo, t.pivot), AreasIn(t.right, t.pivot, hi);
      assert (x + y)[1..] == x[1..] + y;
    }
  }

  /** Both gaps at the pivot of `t` given the same record. */
  function WithGaps(t: Tree, leaf: Leaf): (r: Tree)
    requires t.Fork?
    ensures r.Fork?
  {
    t.(left := SetLast(t.left, leaf), right := SetFirst(t.right, leaf))
  }

  lemma WithGapsAround(c: Ctx, t: Tree, leaf: Leaf)
    requires t.Fork?
    ensures var t' := WithGaps(t, leaf);
      && LeftOf(c, t') == LeftOf(c, t) && RightOf(c, t') == RightOf(c, t)
      && LastArea(c, t') == LastArea(c, t).(leaf := leaf) && FirstArea(c, t') == FirstArea(c, t).(leaf := leaf)
  {
    SetLastAreas(t.left, leaf, LowOf(c), t.pivot);
    SetFirstAreas(t.right, leaf, t.pivot, HighOf(c));
  }

  ghost function JoinedArea(c: Ctx, t: Tree): Area
    requires t.Fork? && LastLeaf(t.left).leaf.Empty? && FirstLeaf(t.right).leaf.Empty?
  {
    Area(LastArea(c, t).lo, FirstArea(c, t).hi, Empty(LastLeaf(t.left).leaf.size + FirstLeaf(t.right).leaf.size))
  }

  lemma {:induction false} LeafStored(s: Store, t: Tree, up: Option<Ptr>)
    requires Rep(s, t, up)
    ensures LastLeaf(t).p in s && s[LastLeaf(t).p] == LeafNode(LastLeaf(t).leaf)
    ensures FirstLeaf(t).p in s && s[FirstLeaf(t).p] == LeafNode(FirstLeaf(t).leaf)
  {
    if t.Fork? {
      LeafStored(s, t.left, Some(t.p));
      LeafStored(s, t.right, Some(t.p));
    }
  }

  lemma {:induction false} MinPivot(t: Tree)
    requires t.Fork?
    ensures Pivots(t)[0] == MinTree(t).pivot
  {
    if t.left.Fork? {
      MinPivot(t.left);
    }
  }

  /** Rewriting the two gaps leaves everything else ready for the removal of the branch. */
  lemma WithGapsReady(c: Ctx, t: Tree, leaf: Leaf)
    requires t.Fork? && Balanced(t) && Exact(t.left) && Exact(t.right) && Ordered(Pivots(Plug(c, t)))
    ensures var t' := WithGaps(t, leaf);
      && Ptrs(t') == Ptrs(t) && Balanced(t') && BlackHeight(t') == BlackHeight(t)
      && ExactOff(t'.left, LastLeaf(t'.left).p) && ExactOff(t'.right, FirstLeaf(t'.right).p)
      && LastLeaf(t'.left).leaf == leaf && FirstLeaf(t'.right).leaf == leaf
      && Target(t').pivot % 4 == 0
  {
    SetLastKeeps(t.left, leaf);
    SetFirstKeeps(t.right, leaf);
    AlignedPivots(c, t);
    if t.right.Fork? {
      MinPivot(WithGaps(t, leaf).right);
    }
  }

  lemma AlignedPivots(c: Ctx, t: Tree)
    requires t.Fork? && Ordered(Pivots(Plug(c, t)))
    ensures t.pivot % 4 == 0 && (Pivots(t.right) != [] ==> Pivots(t.right)[0] % 4 == 0)
  {
    PlugFlat(c, t);
    OrderedIff(Pivots(Plug(c, t)));
    var ps, n := Pivots(Plug(c, t)), |PivotsBefore(c)| + |Pivots(t.left)|;
    assert ps[n] == t.pivot;
    if Pivots(t.right) != [] {
      assert ps[n + 1] == Pivots(t.right)[0];
    }
  }

  /** The areas of the tree after the two gaps at the pivot of `t` were joined. */
  lemma JoinedAreas(c: Ctx, t: Tree, leaf: Leaf, k: Ptr, w: Tree)
    requires t.Fork? && Plain(t) && leaf.Empty?
    requires var t' := WithGaps(t, leaf); SameFlat(Plug(TargetCtx(c, t'), Lone(Target(t'), k)), w)
    ensures Areas(w) == LeftOf(c, t) + [Area(LastArea(c, t).lo, FirstArea(c, t).hi, leaf)] + RightOf(c, t)
    ensures HeldBy(w, |LeftOf(c, t)|, Keeper(WithGaps(t, leaf), k))
  {
    var t' := WithGaps(t, leaf);
    SetLastKeeps(t.left, leaf);
    SetFirstKeeps(t.right, leaf);
    WithGapsAround(c, t, leaf);
    TargetJoins(c, t', k);
    TargetSlot(c, t', k);
    SameAreas(Plug(TargetCtx(c, t'), Lone(Target(t'), k)), w);
  }

  // ----- the state of the gap-join loop -----

  /** No two neighbouring gaps, but for pairs that involve area `j`. */
  ghost predicate OnlyAround(a: seq<Area>, j: nat) {
    forall i | 0 <= i < |a| - 1 && i != j && i + 1 != j :: a[i].leaf.Used? || a[i + 1].leaf.Used?
  }

  /** Area `j`, held by leaf `q`, is the gap that contains `addr`; only next to it may another gap lie. */
  ghost predicate Joining(w: Tree, j: nat, q: Ptr, addr: nat) {
    && HeldBy(w, j, q) && j < |Areas(w)|
    && Areas(w)[j].lo <= addr < Areas(w)[j].hi && Areas(w)[j].leaf.Empty?
    && Sized(Areas(w)) && OnlyAround(Areas(w), j)
  }

  lemma StillJoining(w: Tree, w': Tree, j: nat, q: Ptr, addr: nat,
                     x: seq<Area>, u: Area, v: Area, y: seq<Area>, leaf: Leaf, q': Ptr)
    requires Joining(w, j, q, addr) && Tiled(Areas(w)) && Areas(w) == x + [u, v] + y
    requires u.leaf.Empty? && v.leaf.Empty? && leaf == Empty(u.leaf.size + v.leaf.size)
    requires Areas(w') == x + [Area(u.lo, v.hi, leaf)] + y && HeldBy(w', |x|, q')
    ensures Joining(w', |x|, q', addr)
  {
    var a, b, n := Areas(w), Areas(w'), |x|;
    assert a[n] == u && a[n + 1] == v && b[n] == Area(u.lo, v.hi, leaf);
    assert j == n || j == n + 1;
    forall z | z in b && z.leaf.Empty?
      ensures z.leaf.size == z.hi - z.lo
    {
      assert u in a && v in a;
      if z != b[n] {
        assert z in x || z in y;
        assert z in a;
      }
    }
    forall i | 0 <= i < |b| - 1 && i != n && i + 1 != n
      ensures b[i].leaf.Used? || b[i + 1].leaf.Used?
    {
      if i + 1 < n {
        assert b[i] == a[i] && b[i + 1] == a[i + 1];
      } else {
        assert b[i] == a[i + 1] && b[i + 1] == a[i + 2];
      }
    }
  }

  lemma StillTheSegments(w: Tree, w': Tree, x: seq<Area>, u: Area, v: Area, y: seq<Area>, leaf: Leaf)
    requires Areas(w) == x + [u, v] + y && u.leaf.Empty? && v.leaf.Empty? && leaf.Empty?
    requires Areas(w') == x + [Area(u.lo, v.hi, leaf)] + y
    ensures Segments(Areas(w')) == Segments(Areas(w))
  {
    Segments3(x, [u, v], y);
    Segments3(x, [Area(u.lo, v.hi, leaf)], y);
    assert Segments([u, v]) == {} == Segments([Area(u.lo, v.hi, leaf)]);
  }

  lemma StillOrdered(w: Tree, w': Tree, x: seq<Area>, u: Area, v: Area, y: seq<Area>, leaf: Leaf)
    requires Ordered(Pivots(w)) && Areas(w) == x + [u, v] + y
    requires Areas(w') == x + [Area(u.lo, v.hi, leaf)] + y
    ensures Ordered(Pivots(w'))
  {
    OrderedTiled(w);
    OrderedAligned(w);
    JoinsTiled(x, u, v, y, leaf);
    JoinsAligned(x, u, v, y, leaf);
    TiledOrdered(w');
  }

  // ----- climbing from the gap to the root -----

  /** The context with the gap data recomputed for a focus whose own gap is `gap`. */
  function Refreshed(c: Ctx, gap: nat): Ctx
    decreases c
  {
    if c.Top? then Top
    else var m := Max(gap, Gap(c.sib));
      c.(maxEmpty := m, up := Refreshed(c.up, m))
  }

  lemma {:induction false} RefreshedPlug(c: Ctx, t: Tree)
    ensures Plug(Refreshed(c, Gap(t)), t) == Above(c, t)
    ensures ParentOf(Refreshed(c, Gap(t))) == ParentOf(c)
    decreases c
  {
    if c.Step? {
      var p := Recalc(Pull(c, t));
      RefreshedPlug(c.up, p);
      assert Pull(Refreshed(c, Gap(t)), t) == p;
      if c.up.Step? {
        assert Updated(c.up, Pull(c, t)) == Updated(c.up.up, Pull(c.up, p));
      }
    }
  }

  lemma NoGapsConcat(a: seq<Area>, b: seq<Area>)
    requires NoAdjacentGaps(a) && NoAdjacentGaps(b) && a != [] && b != []
    requires a[|a| - 1].leaf.Used? || b[0].leaf.Used?
    ensures NoAdjacentGaps(a + b)
  {
    var s := a + b;
    forall i | 0 <= i < |s| - 1
      ensures s[i].leaf.Used? || s[i + 1].leaf.Used?
    {
      if i + 1 < |a| {
        assert s[i] == a[i] && s[i + 1] == a[i + 1];
      } else if i >= |a| {
        assert s[i] == b[i - |a|] && s[i + 1] == b[i - |a| + 1];
      }
    }
  }

  /** A part of the areas that lies wholly beside area `j`. */
  lemma BesideNoGaps(x: seq<Area>, m: seq<Area>, y: seq<Area>, j: nat)
    requires OnlyAround(x + m + y, j) && (j < |x| || j >= |x| + |m|)
    ensures NoAdjacentGaps(m)
  {
    var a := x + m + y;
    forall i | 0 <= i < |m| - 1
      ensures m[i].leaf.Used? || m[i + 1].leaf.Used?
    {
      assert a[|x| + i] == m[i] && a[|x| + i + 1] == m[i + 1];
    }
  }

  /** The focus holds area `j`, and no two neighbouring gaps. */
  ghost predicate Clean(c: Ctx, t: Tree, j: nat) {
    && |SlotsBefore(c)| <= j < |SlotsBefore(c)| + |Slots(t)|
    && NoAdjacentGaps(AreasIn(t, LowOf(c), HighOf(c)))
  }

  lemma SiblingNoGaps(c: Ctx, t: Tree, j: nat)
    requires c.Step? && OnlyAround(Areas(Plug(c, t)), j) && Clean(c, t, j)
    ensures c.side.Left? ==> NoAdjacentGaps(AreasIn(c.sib, c.pivot, HighOf(c.up)))
    ensures c.side.Right? ==> NoAdjacentGaps(AreasIn(c.sib, LowOf(c.up), c.pivot))
  {
    PlugAreas(c, t);
    var m := AreasIn(t, LowOf(c), HighOf(c));
    if c.side.Left? {
      var sib := AreasIn(c.sib, c.pivot, HighOf(c.up));
      Regroup(AreasBefore(c), m, [], sib, AreasAfter(c.up));
      assert AreasBefore(c) + m + (sib + AreasAfter(c.up)) == (AreasBefore(c) + m) + sib + AreasAfter(c.up);
      BesideNoGaps(AreasBefore(c) + m, sib, AreasAfter(c.up), j);
    } else {
      var sib := AreasIn(c.sib, LowOf(c.up), c.pivot);
      assert (AreasBefore(c.up) + sib) + m + AreasAfter(c) == AreasBefore(c.up) + sib + (m + AreasAfter(c));
      BesideNoGaps(AreasBefore(c.up), sib, m + AreasAfter(c), j);
    }
  }

  /** If the leaves at the parent's pivot are not both gaps, the parent is clean as well. */
  lemma CleanUp(c: Ctx, t: Tree, j: nat)
    requires c.Step? && OnlyAround(Areas(Plug(c, t)), j) && Clean(c, t, j)
    requires LastLeaf(Pull(c, t).left).leaf.Used? || FirstLeaf(Pull(c, t).right).leaf.Used?
    ensures Clean(c.up, Pull(c, t), j)
  {
    SiblingNoGaps(c, t, j);
    var p := Pull(c, t);
    var a, b := AreasIn(p.left, LowOf(c.up), p.pivot), AreasIn(p.right, p.pivot, HighOf(c.up));
    StretchHigh(p.left, LowOf(c.up), p.pivot, p.pivot);
    StretchLow(p.right, p.pivot, p.pivot, HighOf(c.up));
    NoGapsConcat(a, b);
  }

  // ----- turning a segment into a gap -----

  ghost predicate Contains(s: Segment, addr: nat) {
    s.start <= addr < s.start + s.len
  }

  ghost function Without(segs: set<Segment>, addr: nat): set<Segment> {
    set s | s in segs && !Contains(s, addr)
  }

  /** No segment holds the address. */
  ghost predicate FreeAt(segs: set<Segment>, addr: nat) {
    forall s | s in segs :: !Contains(s, addr)
  }

  /** A gap that goes on before the new segment, or behind it, costs a branch and a leaf. */
  function SplitNodes(before: bool, behind: bool): nat {
    (if before then 2 else 0) + if behind then 2 else 0
  }

  /** The nodes that the insertion of addresses start..start+len-1 takes. */
  ghost function NodesNeeded(segs: set<Segment>, start: nat, len: nat): nat {
    SplitNodes(start > 0 && FreeAt(segs, start - 1), start + len < END && FreeAt(segs, start + len))
  }

  /** Segments of areas that lie beside the address do not contain it. */
  lemma BesideWithout(a: seq<Area>, addr: nat)
    requires forall x | x in a :: x.lo < x.hi && (x.hi <= addr || addr < x.lo)
    ensures Without(Segments(a), addr) == Segments(a)
  {
  }

  lemma FreedSegments(b: seq<Area>, u: Area, a: seq<Area>, leaf: Leaf, addr: nat)
    requires Tiled(b + [u] + a) && u.leaf.Used? && leaf.Empty? && u.lo <= addr < u.hi
    ensures Segments(b + [u.(leaf := leaf)] + a) == Without(Segments(b + [u] + a), addr)
  {
    var s := b + [u] + a;
    var n := |b|;
    assert s[n] == u;
    forall x | x in b
      ensures x.lo < x.hi && x.hi <= addr
    {
      var i :| 0 <= i < |b| && b[i] == x;
      assert s[i] == x;
      TiledOrder(s, i, n);
    }
    forall x | x in a
      ensures x.lo < x.hi && addr < x.lo
    {
      var i :| 0 <= i < |a| && a[i] == x;
      assert s[n + 1 + i] == x;
      TiledOrder(s, n, n + 1 + i);
    }
    BesideWithout(b, addr);
    BesideWithout(a, addr);
    Segments3(b, [u], a);
    Segments3(b, [u.(leaf := leaf)], a);
    assert Segments([u]) == {SegmentOf(u)} by {
      assert u in [u];
    }
    assert Segments([u.(leaf := leaf)]) == {};
  }

  /** The state in which the join loop starts. */
  lemma FreedJoining(c: Ctx, t: Tree, addr: nat)
    requires t.Tip? && t.leaf.Used? && NoAdjacentGaps(Areas(Plug(c, t))) && Sized(Areas(Plug(c, t)))
    requires LowOf(c) <= addr < HighOf(c)
    ensures var t' := Tip(t.p, Empty(HighOf(c) - LowOf(c))); Joining(Plug(c, t'), |SlotsBefore(c)|, t.p, addr)
  {
    var t' := Tip(t.p, Empty(HighOf(c) - LowOf(c)));
    FocusTip(c, t);
    FocusTip(c, t');
    var a, b, n := Areas(Plug(c, t)), Areas(Plug(c, t')), |SlotsBefore(c)|;
    assert forall i | 0 <= i < |a| && i != n :: b[i] == a[i];
    forall z | z in b && z.leaf.Empty?
      ensures z.leaf.size == z.hi - z.lo
    {
      var i :| 0 <= i < |b| && b[i] == z;
      if i != n {
        assert a[i] in a;
      }
    }
  }

  lemma FoundSegment(c: Ctx, t: Tree, addr: nat)
    requires t.Tip? && Ordered(Pivots(Plug(c, t))) && LowOf(c) <= addr < HighOf(c)
    requires exists s :: s in Segments(Areas(Plug(c, t))) && Contains(s, addr)
    ensures t.leaf.Used?
  {
    var a := Areas(Plug(c, t));
    OrderedTiled(Plug(c, t));
    var s :| s in Segments(a) && Contains(s, addr);
    var x :| x in a && x.leaf.Used? && SegmentOf(x) == s;
    var i :| 0 <= i < |a| && a[i] == x;
    FoundArea(c, t, i, addr);
  }

  lemma SizedWhenUsed(c: Ctx, t: Tree)
    requires t.Tip? && t.leaf.Used? && (Sized(Areas(Plug(c, t))) || NeverInserted(Plug(c, t)))
    ensures Sized(Areas(Plug(c, t)))
  {
    if c.Step? {
      PlugFork(c.up, Pull(c, t));
    }
  }

  lemma FreedTree(c: Ctx, t: Tree, addr: nat)
    requires t.Tip? && t.leaf.Used? && LowOf(c) <= addr < HighOf(c) && Ordered(Pivots(Plug(c, t)))
    requires NoAdjacentGaps(Areas(Plug(c, t))) && (Sized(Areas(Plug(c, t))) || NeverInserted(Plug(c, t)))
    ensures var w := Plug(c, Tip(t.p, Empty(HighOf(c) - LowOf(c))));
      && Joining(w, |SlotsBefore(c)|, t.p, addr) && Ordered(Pivots(w))
      && Segments(Areas(w)) == Without(Segments(Areas(Plug(c, t))), addr)
  {
    var leaf := Empty(HighOf(c) - LowOf(c));
    SizedWhenUsed(c, t);
    FreedJoining(c, t, addr);
    TipPivots(c, t, Tip(t.p, leaf));
    OrderedTiled(Plug(c, t));
    FocusTip(c, t);
    FocusTip(c, Tip(t.p, leaf));
    FreedSegments(AreasBefore(c), Area(LowOf(c), HighOf(c), t.leaf), AreasAfter(c), leaf, addr);
  }

  /** The tree between two joins: gap data may be old above the gap `q`. */
  ghost predicate Stale(s: Store, root: Ptr, w: Tree, q: Ptr) {
    && Zip(s, root, Top, w) && s.Keys == Ptrs(w)
    && Balanced(w) && TreeColor(w).Black? && Ordered(Pivots(w)) && ExactOff(w, q)
  }

  lemma StaleAround(s: Store, root: Ptr, c: Ctx, t: Tree)
    requires SoundAround(s, root, c, t) && Ordered(Pivots(Plug(c, t)))
    ensures Stale(s, root, Plug(c, t), t.p)
  {
    ZipTop(s, root, c, t);
    PlugPtrs(c, t);
    PlugBalanced(c, t);
    ExactIsOffC(c, t.p);
    ReplaceOff(c, t, t.p);
  }

  lemma SiblingReady(c: Ctx, t: Tree)
    requires c.Step? && t.Tip? && c.sib.Tip?
    requires Fits(c, 0, Black) && TopColor(c, Black).Black? && ExactC(c)
    ensures var p := Pull(c, t);
      && Balanced(p) && Fits(c.up, BlackHeight(p), p.color) && TopColor(c.up, p.color).Black?
      && ExactC(c.up) && PtrsC(c.up) + Ptrs(p) == PtrsC(c) + {t.p}
  {
  }

  lemma FocusReady(c: Ctx, p: Tree)
    requires Good(Plug(c, p)) && p.Fork?
    ensures Plain(p) && !p.temp && Plain(p.left) && Plain(p.right)
    ensures Balanced(p) && Fits(c, BlackHeight(p), p.color) && TopColor(c, p.color).Black?
    ensures ExactC(c) && Exact(p.left) && Exact(p.right)
    ensures Ptrs(Plug(c, p)) == PtrsC(c) + Ptrs(p)
  {
    PlugBalanced(c, p);
    BalancedPlain(p);
    PlugExact(c, p);
    PlugPtrs(c, p);
  }

  lemma JoinedStep(c: Ctx, p: Tree, w: Tree, j: nat, q: Ptr, q': Ptr, addr: nat)
    requires p.Fork? && Joining(Plug(c, p), j, q, addr) && Ordered(Pivots(Plug(c, p)))
    requires LastLeaf(p.left).leaf.Empty? && FirstLeaf(p.right).leaf.Empty?
    requires Areas(w) == LeftOf(c, p) + [JoinedArea(c, p)] + RightOf(c, p) && HeldBy(w, |LeftOf(c, p)|, q')
    ensures Joining(w, |LeftOf(c, p)|, q', addr) && Ordered(Pivots(w))
    ensures Segments(Areas(w)) == Segments(Areas(Plug(c, p))) && |Slots(w)| < |Slots(Plug(c, p))|
  {
    var x, u, v, y := LeftOf(c, p), LastArea(c, p), FirstArea(c, p), RightOf(c, p);
    var leaf := Empty(LastLeaf(p.left).leaf.size + FirstLeaf(p.right).leaf.size);
    AroundPivot(c, p);
    OrderedTiled(Plug(c, p));
    assert JoinedArea(c, p) == Area(u.lo, v.hi, leaf);
    StillJoining(Plug(c, p), w, j, q, addr, x, u, v, y, leaf, q');
    StillTheSegments(Plug(c, p), w, x, u, v, y, leaf);
    StillOrdered(Plug(c, p), w, x, u, v, y, leaf);
  }

  lemma {:induction false} RefreshedFlat(c: Ctx, gap: nat)
    ensures SlotsBefore(Refreshed(c, gap)) == SlotsBefore(c)
    ensures LowOf(Refreshed(c, gap)) == LowOf(c) && HighOf(Refreshed(c, gap)) == HighOf(c)
    decreases c
  {
    if c.Step? {
      RefreshedFlat(c.up, Max(gap, Gap(c.sib)));
    }
  }

  /** Recomputing the gap data above the gap makes the whole tree exact again. */
  lemma RefreshedGood(c: Ctx, t: Tree)
    requires t.Tip? && t.p !in PtrsC(c) && ExactOff(Plug(c, t), t.p)
    requires Balanced(Plug(c, t)) && TreeColor(Plug(c, t)).Black? && Ordered(Pivots(Plug(c, t)))
    ensures SameFlat(Plug(c, t), Above(c, t)) && Good(Above(c, t))
  {
    PlugOff(c, t, t.p);
    OffIsExactC(c, t.p);
    PlugBalanced(c, t);
    AboveKeeps(c, t);
  }

  lemma RefreshedSound(s: Store, root: Ptr, c: Ctx, t: Tree, w: Tree, w1: Tree, j: nat, addr: nat)
    requires Plug(c, t) == w && t.Tip? && t.p !in PtrsC(c) && w1 == Above(c, t)
    requires Zip(s, root, Top, w1) && s.Keys == Ptrs(w)
    requires Balanced(w) && TreeColor(w).Black? && Ordered(Pivots(w)) && ExactOff(w, t.p)
    requires Joining(w, j, t.p, addr) && j == |SlotsBefore(c)|
    ensures Sound(s, root, w1) && Joining(w1, j, t.p, addr) && Areas(w1) == Areas(w) && Slots(w1) == Slots(w) && Forks(w1) == Forks(w)
    ensures Plug(Refreshed(c, Gap(t)), t) == w1 && ParentOf(Refreshed(c, Gap(t))) == ParentOf(c)
    ensures Clean(Refreshed(c, Gap(t)), t, j)
  {
    RefreshedGood(c, t);
    SameAreas(w, w1);
    RefreshedPlug(c, t);
    RefreshedFlat(c, Gap(t));
  }

  // ----- new flags for one segment -----

  /** In a row of areas one segment gets other flags. */
  lemma FlagsAreas(b: seq<Area>, u: Area, a: seq<Area>, flags: Flags)
    requires u.leaf.Used? && NoAdjacentGaps(b + [u] + a) && Sized(b + [u] + a)
    ensures NoAdjacentGaps(b + [u.(leaf := Used(flags))] + a) && Sized(b + [u.(leaf := Used(flags))] + a)
  {
    var s, s', n := b + [u] + a, b + [u.(leaf := Used(flags))] + a, |b|;
    assert forall i | 0 <= i < |s| && i != n :: s'[i] == s[i];
    assert s'[n].leaf.Used?;
    forall i | 0 <= i < |s'| - 1
      ensures s'[i].leaf.Used? || s'[i + 1].leaf.Used?
    {
      assert s[i].leaf.Used? || s[i + 1].leaf.Used?;
    }
    forall x | x in s' && x.leaf.Empty?
      ensures x in s
    {
      var i :| 0 <= i < |s'| && s'[i] == x;
      assert s[i] == x;
    }
  }

  lemma FlagsSegments(b: seq<Area>, u: Area, a: seq<Area>, flags: Flags)
    requires u.leaf.Used? && Tiled(b + [u] + a) && u.lo < u.hi
    ensures Segments(b + [u.(leaf := Used(flags))] + a) == Without(Segments(b + [u] + a), u.lo) + {Segment(u.lo, u.hi - u.lo, flags)}
    ensures SegmentOf(u) in Segments(b + [u] + a)
  {
    var u' := u.(leaf := Used(flags));
    FreedSegments(b, u, a, Empty(0), u.lo);
    Segments3(b, [u'], a);
    Segments3(b, [u.(leaf := Empty(0))], a);
    assert u' in [u'] && SegmentOf(u') == Segment(u.lo, u.hi - u.lo, flags);
    assert Segments([u']) == {SegmentOf(u')} && Segments([u.(leaf := Empty(0))]) == {};
    assert u in b + [u] + a by {
      assert (b + [u] + a)[|b|] == u;
    }
  }

  lemma RelockedAreas(c: Ctx, t: Tree, flags: Flags)
    requires t.Tip? && t.leaf.Used?
    requires NoAdjacentGaps(Areas(Plug(c, t))) && (Sized(Areas(Plug(c, t))) || NeverInserted(Plug(c, t)))
    ensures NoAdjacentGaps(Areas(Plug(c, Tip(t.p, Used(flags))))) && Sized(Areas(Plug(c, Tip(t.p, Used(flags)))))
  {
    SizedWhenUsed(c, t);
    FocusTip(c, t);
    FocusTip(c, Tip(t.p, Used(flags)));
    FlagsAreas(AreasBefore(c), Area(LowOf(c), HighOf(c), t.leaf), AreasAfter(c), flags);
  }

  lemma RelockedSegments(c: Ctx, t: Tree, flags: Flags)
    requires t.Tip? && t.leaf.Used? && Ordered(Pivots(Plug(c, t))) && LowOf(c) < HighOf(c)
    ensures Segments(Areas(Plug(c, Tip(t.p, Used(flags)))))
      == Without(Segments(Areas(Plug(c, t))), LowOf(c)) + {Segment(LowOf(c), HighOf(c) - LowOf(c), flags)}
    ensures Segment(LowOf(c), HighOf(c) - LowOf(c), t.leaf.flags) in Segments(Areas(Plug(c, t)))
  {
    var b, u, a := AreasBefore(c), Area(LowOf(c), HighOf(c), t.leaf), AreasAfter(c);
    assert Tiled(b + [u] + a) && Areas(Plug(c, t)) == b + [u] + a by {
      OrderedTiled(Plug(c, t));
      FocusTip(c, t);
    }
    assert Areas(Plug(c, Tip(t.p, Used(flags)))) == b + [u.(leaf := Used(flags))] + a by {
      FocusTip(c, Tip(t.p, Used(flags)));
    }
    FlagsSegments(b, u, a, flags);
    assert SegmentOf(u) == Segment(LowOf(c), HighOf(c) - LowOf(c), t.leaf.flags);
  }

  lemma RelockedGood(s: Store, root: Ptr, c: Ctx, t: Tree, flags: Flags)
    requires SoundAround(s, root, c, t) && t.leaf.Used? && Good(Plug(c, t)) && s.Keys == Ptrs(Plug(c, t))
    ensures Good(Plug(c, Tip(t.p, Used(flags)))) && Ptrs(Plug(c, Tip(t.p, Used(flags)))) == s.Keys
  {
    var t' := Tip(t.p, Used(flags));
    PlugPtrs(c, t);
    PlugPtrs(c, t');
    PlugBalanced(c, t');
    SwapExact(c, t, t');
    TipPivots(c, t, t');
  }
}
