/** Removing a branch and one of the two gaps that it separates: which node goes, and what is left. */
module VmaRemove {
  import opened VmaNodes
  import opened VmaShape
  import opened VmaBalance
  import opened VmaGaps
  import opened VmaLayout
  import opened VmaDelete

  // ----- the branch that is physically removed -----

  /** The leftmost branch. */
  function MinTree(t: Tree): (r: Tree)
    requires t.Fork?
    ensures r.Fork? && r.left.Tip?
  {
    if t.left.Fork? then MinTree(t.left) else t
  }

  function MinCtx(t: Tree, c: Ctx): Ctx
    requires t.Fork?
    decreases t
  {
    if t.left.Fork? then MinCtx(t.left, Push(Left, t, c)) else c
  }

  function HasLeafChild(t: Tree): bool
    requires t.Fork?
  {
    t.left.Tip? || t.right.Tip?
  }

  /** With two branches below, the branch takes the successor's pivot and the successor goes. */
  function Repivoted(t: Tree): Tree
    requires t.Fork? && t.right.Fork?
  {
    t.(pivot := MinTree(t.right).pivot, maxEmpty := MinTree(t.right).maxEmpty)
  }

  function Target(t: Tree): (r: Tree)
    requires t.Fork?
    ensures r.Fork? && HasLeafChild(r)
  {
    if HasLeafChild(t) then t else MinTree(t.right)
  }

  function TargetCtx(c: Ctx, t: Tree): Ctx
    requires t.Fork?
  {
    if HasLeafChild(t) then c else MinCtx(t.right, Push(Right, Repivoted(t), c))
  }

  /** What takes the place of the removed branch; `k` is the node that holds a surviving leaf. */
  function Lone(t: Tree, k: Ptr): Tree
    requires t.Fork? && HasLeafChild(t)
  {
    if t.left.Fork? then t.left
    else if t.right.Fork? then t.right
    else Tip(k, if t.left.leaf.Used? then t.left.leaf else t.right.leaf)
  }

  /** The same before a black branch over two leaves has been settled: a temporary branch `k` holds both. */
  function Moved(t: Tree, k: Ptr): Tree
    requires t.Fork? && HasLeafChild(t)
  {
    if t.left.Fork? then t.left
    else if t.right.Fork? then t.right
    else if t.color.Red? then (if t.left.leaf.Used? then t.left else t.right)
    else Fork(k, 0, true, Black, 0, t.left, t.right)
  }

  lemma {:induction false} PlugMin(t: Tree, c: Ctx)
    requires t.Fork? && Plain(t)
    ensures Plug(MinCtx(t, c), MinTree(t)) == Plug(c, t)
    ensures Plain(MinTree(t))
    decreases t
  {
    if t.left.Fork? {
      PlugMin(t.left, Push(Left, t, c));
    }
  }

  lemma {:induction false} ZipMin(s: Store, root: Ptr, c: Ctx, t: Tree)
    requires Zip(s, root, c, t) && t.Fork? && Plain(t)
    ensures Zip(s, root, MinCtx(t, c), MinTree(t))
    decreases t
  {
    if t.left.Fork? {
      ZipDown(s, root, c, t, Left);
      ZipMin(s, root, Push(Left, t, c), t.left);
    }
  }

  lemma ZipTarget(s: Store, root: Ptr, c: Ctx, t: Tree)
    requires t.Fork? && Plain(t) && Zip(s, root, c, if HasLeafChild(t) then t else Repivoted(t))
    ensures Zip(s, root, TargetCtx(c, t), Target(t))
  {
    if !HasLeafChild(t) {
      ZipDown(s, root, c, Repivoted(t), Right);
      ZipMin(s, root, Push(Right, Repivoted(t), c), t.right);
    }
  }

  /** Balance does not look at pivots. */
  lemma TargetBalanced(c: Ctx, t: Tree)
    requires t.Fork? && Balanced(t) && Fits(c, BlackHeight(t), t.color)
    ensures Balanced(Target(t)) && Fits(TargetCtx(c, t), BlackHeight(Target(t)), Target(t).color)
    ensures TopColor(TargetCtx(c, t), Target(t).color) == TopColor(c, t.color)
  {
    if !HasLeafChild(t) {
      var t' := Repivoted(t);
      assert Balanced(t');
      BalancedPlain(t.right);
      PlugBalanced(c, t');
      PlugMin(t.right, Push(Right, t', c));
      assert Plug(Push(Right, t', c), t.right) == Plug(c, t');
      PlugBalanced(TargetCtx(c, t), Target(t));
    }
  }

  /** A branch with a leaf below it is black over a red branch, or has two leaves. */
  lemma LeafChildCases(t: Tree)
    requires t.Fork? && Balanced(t) && HasLeafChild(t)
    ensures t.left.Fork? ==> t.color.Black? && t.left.color.Red? && BlackHeight(t) == 1 && BlackHeight(t.left) == 0
    ensures t.right.Fork? ==> t.color.Black? && t.right.color.Red? && BlackHeight(t) == 1 && BlackHeight(t.right) == 0
    ensures t.left.Tip? && t.right.Tip? ==> BlackHeight(t) == if t.color.Black? then 1 else 0
  {
    assert Balanced(t.left) && Balanced(t.right);
  }

  // ----- the two gaps at the pivot -----

  /** Last leaf and first leaf of a subtree. */
  function LastLeaf(t: Tree): (r: Tree)
    ensures r.Tip?
  {
    if t.Tip? then t else LastLeaf(t.right)
  }

  function FirstLeaf(t: Tree): (r: Tree)
    ensures r.Tip?
  {
    if t.Tip? then t else FirstLeaf(t.left)
  }

  lemma {:induction false} FirstLeafMin(t: Tree)
    requires t.Fork?
    ensures FirstLeaf(t) == MinTree(t).left
  {
    if t.left.Fork? {
      FirstLeafMin(t.left);
    }
  }

  lemma {:induction false} LeafInPtrs(t: Tree)
    ensures LastLeaf(t).p in Ptrs(t) && FirstLeaf(t).p in Ptrs(t)
  {
    if t.Fork? {
      LeafInPtrs(t.left);
      LeafInPtrs(t.right);
    }
  }

  // ----- areas -----

  lemma {:induction false} StretchHigh(t: Tree, lo: nat, hi: nat, hi': nat)
    ensures AreasIn(t, lo, hi)[..|AreasIn(t, lo, hi)| - 1] == AreasIn(t, lo, hi')[..|AreasIn(t, lo, hi)| - 1]
    ensures var n := |AreasIn(t, lo, hi)| - 1;
      && n >= 0 && AreasIn(t, lo, hi)[n].hi == hi && AreasIn(t, lo, hi)[n].leaf == LastLeaf(t).leaf
      && AreasIn(t, lo, hi')[n] == AreasIn(t, lo, hi)[n].(hi := hi')
  {
    if t.Fork? {
      StretchHigh(t.right, t.pivot, hi, hi');
      var a, b, b' := AreasIn(t.left, lo, t.pivot), AreasIn(t.right, t.pivot, hi), AreasIn(t.right, t.pivot, hi');
      assert (a + b)[..|a| + |b| - 1] == a + b[..|b| - 1];
      assert (a + b')[..|a| + |b| - 1] == a + b'[..|b| - 1];
    }
  }

  lemma StretchedHigh(t: Tree, lo: nat, hi: nat, hi': nat)
    ensures var a := AreasIn(t, lo, hi);
      && a[|a| - 1].leaf == LastLeaf(t).leaf
      && AreasIn(t, lo, hi') == a[..|a| - 1] + [Area(a[|a| - 1].lo, hi', LastLeaf(t).leaf)]
  {
    StretchHigh(t, lo, hi, hi');
    SplitLast(AreasIn(t, lo, hi'));
  }

  lemma SplitLast<T>(s: seq<T>)
    requires s != []
    ensures s == s[..|s| - 1] + [s[|s| - 1]]
  {
  }

  lemma {:induction false} StretchLow(t: Tree, lo: nat, lo': nat, hi: nat)
    ensures AreasIn(t, lo, hi)[1..] == AreasIn(t, lo', hi)[1..]
    ensures AreasIn(t, lo, hi)[0].lo == lo && AreasIn(t, lo, hi)[0].leaf == FirstLeaf(t).leaf
    ensures AreasIn(t, lo', hi)[0] == AreasIn(t, lo, hi)[0].(lo := lo')
  {
    if t.Fork? {
      StretchLow(t.left, lo, lo', t.pivot);
      var a, a', b := AreasIn(t.left, lo, t.pivot), AreasIn(t.left, lo', t.pivot), AreasIn(t.right, t.pivot, hi);
      assert (a + b)[1..] == a[1..] + b;
      assert (a' + b)[1..] == a'[1..] + b;
    }
  }

  /** The areas of `t` with the two areas at its pivot joined into one. */
  ghost function JoinedIn(t: Tree, lo: nat, hi: nat): seq<Area>
    requires t.Fork?
  {
    var a, b := AreasIn(t.left, lo, t.pivot), AreasIn(t.right, t.pivot, hi);
    a[..|a| - 1] + [Area(a[|a| - 1].lo, b[0].hi, b[0].leaf)] + b[1..]
  }

  function Rest(t: Tree, k: Ptr): Tree
    requires t.Fork? && t.left.Tip?
  {
    if t.right.Fork? then t.right else Tip(k, t.right.leaf)
  }

  /** The subtree without its first leaf and its leftmost branch. */
  function DropMin(t: Tree, k: Ptr): Tree
    requires t.Fork?
  {
    if t.left.Fork? then t.(left := DropMin(t.left, k)) else Rest(t, k)
  }

  lemma {:induction false} PlugDropMin(t: Tree, c: Ctx, k: Ptr)
    requires t.Fork? && Plain(t)
    ensures Plug(MinCtx(t, c), Rest(MinTree(t), k)) == Plug(c, DropMin(t, k))
    decreases t
  {
    if t.left.Fork? {
      PlugDropMin(t.left, Push(Left, t, c), k);
    }
  }

  lemma {:induction false} DropMinAreas(t: Tree, k: Ptr, lo: nat, hi: nat)
    requires t.Fork?
    ensures AreasIn(t, lo, hi)[0] == Area(lo, MinTree(t).pivot, FirstLeaf(t).leaf)
    ensures AreasIn(DropMin(t, k), MinTree(t).pivot, hi) == AreasIn(t, lo, hi)[1..]
    decreases t
  {
    var a, b := AreasIn(t.left, lo, t.pivot), AreasIn(t.right, t.pivot, hi);
    assert (a + b)[1..] == a[1..] + b;
    if t.left.Fork? {
      DropMinAreas(t.left, k, lo, t.pivot);
    }
  }

  /** With a leaf below the branch. */
  lemma LoneAreas(t: Tree, lo: nat, hi: nat, k: Ptr)
    requires t.Fork? && HasLeafChild(t)
    requires LastLeaf(t.left).leaf == FirstLeaf(t.right).leaf && FirstLeaf(t.right).leaf.Empty?
    ensures AreasIn(Lone(t, k), lo, hi) == JoinedIn(t, lo, hi)
  {
    var a, b := AreasIn(t.left, lo, t.pivot), AreasIn(t.right, t.pivot, hi);
    if t.left.Fork? {
      StretchedHigh(t.left, lo, t.pivot, hi);
    } else if t.right.Fork? {
      StretchLow(t.right, t.pivot, lo, hi);
      var b' := AreasIn(t.right, lo, hi);
      assert b' == [b'[0]] + b'[1..];
    }
  }

  lemma TwoBranchAreas(c: Ctx, t: Tree, k: Ptr)
    requires t.Fork? && Plain(t) && !HasLeafChild(t)
    requires LastLeaf(t.left).leaf == FirstLeaf(t.right).leaf && FirstLeaf(t.right).leaf.Empty?
    ensures Areas(Plug(TargetCtx(c, t), Lone(Target(t), k)))
         == AreasBefore(c) + JoinedIn(t, LowOf(c), HighOf(c)) + AreasAfter(c)
  {
    var t', m := Repivoted(t), MinTree(t.right);
    FirstLeafMin(t.right);
    PlugDropMin(t.right, Push(Right, t', c), k);
    PlugAreas(c, t'.(right := DropMin(t.right, k)));
    StretchedHigh(t.left, LowOf(c), t.pivot, m.pivot);
    DropMinAreas(t.right, k, t.pivot, HighOf(c));
  }

  /** Removing the branch joins exactly the two areas at its pivot. */
  lemma TargetAreas(c: Ctx, t: Tree, k: Ptr)
    requires t.Fork? && Plain(t)
    requires LastLeaf(t.left).leaf == FirstLeaf(t.right).leaf && FirstLeaf(t.right).leaf.Empty?
    ensures Areas(Plug(TargetCtx(c, t), Lone(Target(t), k)))
         == AreasBefore(c) + JoinedIn(t, LowOf(c), HighOf(c)) + AreasAfter(c)
  {
    if HasLeafChild(t) {
      PlugAreas(c, Lone(t, k));
      LoneAreas(t, LowOf(c), HighOf(c), k);
    } else {
      TwoBranchAreas(c, t, k);
    }
  }

  /** Area lists that differ by joining two neighbours `u` and `v`. */
  ghost predicate Joins(a: seq<Area>, b: seq<Area>, x: seq<Area>, u: Area, v: Area, y: seq<Area>) {
    a == x + [u, v] + y && b == x + [Area(u.lo, v.hi, v.leaf)] + y
  }

  ghost function LeftOf(c: Ctx, t: Tree): seq<Area>
    requires t.Fork?
  {
    var a := AreasIn(t.left, LowOf(c), t.pivot);
    AreasBefore(c) + a[..|a| - 1]
  }

  ghost function RightOf(c: Ctx, t: Tree): seq<Area>
    requires t.Fork?
  {
    AreasIn(t.right, t.pivot, HighOf(c))[1..] + AreasAfter(c)
  }

  ghost function LastArea(c: Ctx, t: Tree): Area
    requires t.Fork?
  {
    var a := AreasIn(t.left, LowOf(c), t.pivot);
    a[|a| - 1]
  }

  ghost function FirstArea(c: Ctx, t: Tree): Area
    requires t.Fork?
  {
    AreasIn(t.right, t.pivot, HighOf(c))[0]
  }

  /** The areas of a tree around the pivot of one of its branches. */
  lemma AroundPivot(c: Ctx, t: Tree)
    requires t.Fork?
    ensures Areas(Plug(c, t)) == LeftOf(c, t) + [LastArea(c, t), FirstArea(c, t)] + RightOf(c, t)
    ensures LastArea(c, t).hi == t.pivot == FirstArea(c, t).lo
    ensures LastArea(c, t).leaf == LastLeaf(t.left).leaf && FirstArea(c, t).leaf == FirstLeaf(t.right).leaf
  {
    var a, b := AreasIn(t.left, LowOf(c), t.pivot), AreasIn(t.right, t.pivot, HighOf(c));
    PlugAreas(c, t);
    StretchHigh(t.left, LowOf(c), t.pivot, t.pivot);
    StretchLow(t.right, t.pivot, t.pivot, HighOf(c));
    MeetAt(AreasBefore(c), a, b, AreasAfter(c));
  }

  lemma MeetAt<T>(before: seq<T>, a: seq<T>, b: seq<T>, after: seq<T>)
    requires a != [] && b != []
    ensures before + (a + b) + after == (before + a[..|a| - 1]) + [a[|a| - 1], b[0]] + (b[1..] + after)
  {
    SplitLast(a);
    assert b == [b[0]] + b[1..];
  }

  lemma TargetJoins(c: Ctx, t: Tree, k: Ptr)
    requires t.Fork? && Plain(t)
    requires LastLeaf(t.left).leaf == FirstLeaf(t.right).leaf && FirstLeaf(t.right).leaf.Empty?
    ensures Joins(Areas(Plug(c, t)), Areas(Plug(TargetCtx(c, t), Lone(Target(t), k))),
                  LeftOf(c, t), LastArea(c, t), FirstArea(c, t), RightOf(c, t))
  {
    AroundPivot(c, t);
    TargetAreas(c, t, k);
    var a, b := AreasIn(t.left, LowOf(c), t.pivot), AreasIn(t.right, t.pivot, HighOf(c));
    Regroup(AreasBefore(c), a[..|a| - 1], [Area(a[|a| - 1].lo, b[0].hi, b[0].leaf)], b[1..], AreasAfter(c));
  }

  // ----- what joining two gaps keeps -----

  lemma JoinsTiled(x: seq<Area>, u: Area, v: Area, y: seq<Area>, leaf: Leaf)
    requires Tiled(x + [u, v] + y)
    ensures Tiled(x + [Area(u.lo, v.hi, leaf)] + y)
  {
    var n, a, b := |x|, x + [u, v] + y, x + [Area(u.lo, v.hi, leaf)] + y;
    assert a[n] == u && a[n + 1] == v && b[n] == Area(u.lo, v.hi, leaf);
    assert forall i | 0 <= i < n :: b[i] == a[i];
    assert forall i | n < i < |b| :: b[i] == a[i + 1];
  }

  /** Areas start at multiples of four, so packing a start into a pivot loses nothing. */
  ghost predicate Aligned(a: seq<Area>) {
    forall x | x in a :: x.lo % 4 == 0
  }

  lemma JoinsAligned(x: seq<Area>, u: Area, v: Area, y: seq<Area>, leaf: Leaf)
    requires Aligned(x + [u, v] + y)
    ensures Aligned(x + [Area(u.lo, v.hi, leaf)] + y)
  {
    var a, b := x + [u, v] + y, x + [Area(u.lo, v.hi, leaf)] + y;
    assert u in a;
    forall z | z in b
      ensures z.lo % 4 == 0
    {
      assert z in x || z in y || z.lo == u.lo;
      assert z in x || z in y ==> z in a;
    }
  }

  lemma TiledOrdered(t: Tree)
    requires Tiled(Areas(t)) && Aligned(Areas(t))
    ensures Ordered(Pivots(t))
  {
    var a, ps := Areas(t), Pivots(t);
    OrderedIff(ps);
    AreasFlat(t, 0, END);
    forall i | 0 <= i < |ps|
      ensures 0 < ps[i] < END && ps[i] % 4 == 0
    {
      assert a[i].hi == ps[i] && a[i + 1].lo == ps[i] && a[i + 1] in a;
      TiledOrder(a, 0, i + 1);
      if i + 1 < |a| - 1 {
        TiledOrder(a, i + 1, |a| - 1);
      }
    }
    forall i, j | 0 <= i < j < |ps|
      ensures ps[i] < ps[j]
    {
      assert a[i + 1].lo == ps[i] && a[j].hi == ps[j];
      if i + 1 < j {
        TiledOrder(a, i + 1, j);
      }
    }
  }

  lemma OrderedAligned(t: Tree)
    requires Ordered(Pivots(t))
    ensures Aligned(Areas(t))
  {
    OrderedIff(Pivots(t));
    AreasFlat(t, 0, END);
  }

  // ----- gap data and node identity -----

  /** The node that holds the joined gap afterwards. */
  function Keeper(t: Tree, k: Ptr): Ptr
    requires t.Fork?
  {
    if t.left.Fork? then LastLeaf(t.left).p else if t.right.Fork? then FirstLeaf(t.right).p else k
  }

  lemma {:induction false} MinOff(t: Tree, c: Ctx, q: Ptr)
    requires t.Fork? && Distinct(t) && ExactOff(t, FirstLeaf(t).p) && ExactOffC(c, q)
    ensures ExactOffC(MinCtx(t, c), q) && Exact(MinTree(t).right)
    decreases t
  {
    LeafInPtrs(t.left);
    OffIsExact(t.right, FirstLeaf(t).p);
    if t.left.Fork? {
      ExactIsOff(t.right, q);
      MinOff(t.left, Push(Left, t, c), q);
    }
  }

  /** Only ancestors of the joined gap may hold old gap data. */
  lemma TargetOff(c: Ctx, t: Tree, k: Ptr)
    requires t.Fork? && Distinct(t) && ExactC(c)
    requires ExactOff(t.left, LastLeaf(t.left).p) && ExactOff(t.right, FirstLeaf(t.right).p)
    ensures ExactOffC(TargetCtx(c, t), Keeper(t, k))
    ensures ExactOff(Lone(Target(t), k), Keeper(t, k))
  {
    var q := Keeper(t, k);
    ExactIsOffC(c, q);
    if !HasLeafChild(t) {
      MinOff(t.right, Push(Right, Repivoted(t), c), q);
      ExactIsOff(Target(t).right, q);
    }
  }

  lemma {:induction false} SlotEnds(t: Tree)
    ensures Slots(t)[0] == Slot(FirstLeaf(t).p, FirstLeaf(t).leaf)
    ensures Slots(t)[|Slots(t)| - 1] == Slot(LastLeaf(t).p, LastLeaf(t).leaf)
  {
    if t.Fork? {
      SlotEnds(t.left);
      SlotEnds(t.right);
    }
  }

  lemma {:induction false} MinSlots(t: Tree, c: Ctx)
    requires t.Fork?
    ensures SlotsBefore(MinCtx(t, c)) == SlotsBefore(c)
    decreases t
  {
    if t.left.Fork? {
      MinSlots(t.left, Push(Left, t, c));
    }
  }

  lemma TargetSlot(c: Ctx, t: Tree, k: Ptr)
    requires t.Fork?
    ensures var w := Plug(TargetCtx(c, t), Lone(Target(t), k));
      |LeftOf(c, t)| < |Slots(w)| && Slots(w)[|LeftOf(c, t)|].p == Keeper(t, k)
  {
    var cx, x := TargetCtx(c, t), Lone(Target(t), k);
    PlugFlat(cx, x);
    SlotEnds(t.left);
    SlotEnds(t.right);
    if !HasLeafChild(t) {
      MinSlots(t.right, Push(Right, Repivoted(t), c));
      assert SlotsBefore(cx) == SlotsBefore(c) + Slots(t.left);
    }
  }

  lemma {:induction false} MinPtrs(t: Tree, c: Ctx)
    requires t.Fork?
    ensures PtrsC(MinCtx(t, c)) + Ptrs(MinTree(t)) == PtrsC(c) + Ptrs(t)
    decreases t
  {
    if t.left.Fork? {
      MinPtrs(t.left, Push(Left, t, c));
    }
  }

  lemma TargetPtrs(c: Ctx, t: Tree)
    requires t.Fork?
    ensures PtrsC(TargetCtx(c, t)) + Ptrs(Target(t)) == PtrsC(c) + Ptrs(t)
  {
    if !HasLeafChild(t) {
      MinPtrs(t.right, Push(Right, Repivoted(t), c));
    }
  }

  /** The leaf beside the target is one of the two gaps. */
  lemma FirstLeafTarget(t: Tree)
    requires t.Fork? && Plain(t) && LastLeaf(t.left).leaf.Empty? && FirstLeaf(t.right).leaf.Empty?
    ensures !Target(t).temp
    ensures Target(t).right.Tip? ==>
      Target(t).right.leaf.Empty? || (Target(t).left.Tip? && Target(t).left.leaf.Empty?)
    ensures Target(t).left.Tip? ==> Target(t).left.leaf.Empty?
  {
    if !HasLeafChild(t) {
      FirstLeafMin(t.right);
      PlugMin(t.right, Top);
    }
  }

  /** The moved node once the fix-up is over: a temporary branch gives way to its surviving leaf. */
  ghost function SettledAs(e: Ctx, x: Tree): Tree
    requires x.Fork?
  {
    if x.temp && x.left.Tip? && x.right.Tip? then Tip(x.p, if x.left.leaf.Used? then x.left.leaf else x.right.leaf)
    else if e.Top? then x.(color := Black)
    else x
  }

  lemma PlugSameFlatC(c: Ctx, e: Ctx, t: Tree)
    requires SameFlatC(c, e)
    ensures SameFlat(Plug(c, t), Plug(e, t))
  {
    PlugFlat(c, t);
    PlugFlat(e, t);
    PlugPtrs(c, t);
    PlugPtrs(e, t);
    PlugForks(c, t);
    PlugForks(e, t);
  }

  /** How the tree stands after the branch `st` in `c` was taken out and the fix-up, if any, ran. */
  ghost predicate AfterFix(c: Ctx, st: Tree, x: Tree, e: Ctx, y: Tree, q: Ptr)
    requires st.Fork? && HasLeafChild(st) && Plain(st)
  {
    && x == Moved(st, x.p)
    && if st.color.Red? then e == c && y == x
       else x.Fork? && Restored(c, e, 0, x.color, q) && y == SettledAs(e, x)
  }

  lemma AfterFixBalanced(c: Ctx, st: Tree, x: Tree, e: Ctx, y: Tree, q: Ptr)
    requires st.Fork? && HasLeafChild(st) && Plain(st) && AfterFix(c, st, x, e, y, q)
    requires Balanced(st) && Fits(c, BlackHeight(st), st.color) && TopColor(c, st.color).Black?
    ensures Balanced(Plug(e, y)) && TreeColor(Plug(e, y)).Black?
  {
    assert Plain(st.left) && Plain(st.right);
    LeafChildCases(st);
    PlugBalanced(e, y);
    if st.color.Red? {
      FitsBlack(c, 0, Red);
      RootNotRed(c, Red);
    } else if x.temp {
    } else {
      assert Balanced(x) && x.color.Red?;
      assert Balanced(x.left) && Balanced(x.right) && BlackHeight(x.left) == BlackHeight(x.right) == 0;
      assert Balanced(y);
      if e.Step? {
        TopColorStep(e, Black, Red);
      }
    }
  }

  lemma AfterFixFlat(c: Ctx, st: Tree, x: Tree, e: Ctx, y: Tree, q: Ptr)
    requires st.Fork? && HasLeafChild(st) && Plain(st) && AfterFix(c, st, x, e, y, q)
    ensures SameFlat(Plug(c, Lone(st, x.p)), Plug(e, y))
  {
    assert Plain(st.left) && Plain(st.right);
    var z := Lone(st, x.p);
    if st.color.Black? {
      if y.Fork? {
        PaintFlat(x, Black);
      }
      PlugSameFlat(c, z, y);
      PlugSameFlatC(c, e, y);
    }
  }

  lemma AfterFixOff(c: Ctx, st: Tree, x: Tree, e: Ctx, y: Tree, q: Ptr)
    requires st.Fork? && HasLeafChild(st) && Plain(st) && AfterFix(c, st, x, e, y, q)
    requires ExactOffC(c, q) && ExactOff(Lone(st, x.p), q)
    ensures ExactOffC(e, q) && ExactOff(y, q)
  {
    assert Plain(st.left) && Plain(st.right);
  }

  /** The finished tree, with gap data recomputed above the moved node. */
  lemma Settled(c: Ctx, st: Tree, x: Tree, e: Ctx, y: Tree, q: Ptr, w: Tree)
    requires st.Fork? && HasLeafChild(st) && Plain(st) && AfterFix(c, st, x, e, y, q)
    requires Balanced(st) && Fits(c, BlackHeight(st), st.color) && TopColor(c, st.color).Black?
    requires ExactOffC(c, q) && ExactOff(Lone(st, x.p), q)
    requires w == Above(e, y)
    ensures Balanced(w) && TreeColor(w).Black? && ExactOff(w, q)
    ensures SameFlat(Plug(c, Lone(st, x.p)), w) && Ptrs(w) == PtrsC(e) + Ptrs(y)
  {
    AfterFixBalanced(c, st, x, e, y, q);
    AfterFixFlat(c, st, x, e, y, q);
    AfterFixOff(c, st, x, e, y, q);
    UpdatedAbove(e, y, q, w);
  }

  lemma UpdatedAbove(e: Ctx, y: Tree, q: Ptr, w: Tree)
    requires w == Above(e, y)
    requires ExactOffC(e, q) && ExactOff(y, q)
    ensures SameFlat(Plug(e, y), w) && Ptrs(w) == PtrsC(e) + Ptrs(y)
    ensures Balanced(w) == Balanced(Plug(e, y)) && TreeColor(w) == TreeColor(Plug(e, y))
    ensures ExactOff(w, q)
  {
    PlugPtrs(e, y);
    if e.Step? {
      var p := Pull(e, y);
      UpdatedFlat(e.up, p);
      UpdatedBalanced(e.up, p);
      UpdatedOff(e.up, p, q);
    }
  }

  // ----- the removal as a function -----

  /** The context of the moved node, and the moved node, after the fix-up. */
  ghost function FixedCtx(c: Ctx, st: Tree, k: Ptr): Ctx
    requires st.Fork? && HasLeafChild(st)
  {
    if Moved(st, k).Fork? then Fixed(c, Moved(st, k)) else c
  }

  ghost function FixedNode(c: Ctx, st: Tree, k: Ptr): Tree
    requires st.Fork? && HasLeafChild(st)
  {
    var x := Moved(st, k);
    if x.Fork? then SettledAs(Fixed(c, x), x) else x
  }

  /** What removing the branch `t` in `c` leaves, with temporary node `k`. */
  ghost function Removed(c: Ctx, t: Tree, k: Ptr): Tree
    requires t.Fork?
  {
    Above(FixedCtx(TargetCtx(c, t), Target(t), k), FixedNode(TargetCtx(c, t), Target(t), k))
  }

  /** A branch whose place is short by one black level once it is gone. */
  lemma TargetShort(c: Ctx, st: Tree, q: Ptr)
    requires st.Fork? && HasLeafChild(st) && Balanced(st) && st.color.Black?
    requires Fits(c, BlackHeight(st), st.color) && TopColor(c, st.color).Black? && ExactOffC(c, q)
    ensures Short(c, 0, q)
  {
    LeafChildCases(st);
  }

  lemma FixedIsAfterFix(c: Ctx, st: Tree, k: Ptr, q: Ptr)
    requires st.Fork? && HasLeafChild(st) && Balanced(st) && Plain(st)
    requires Fits(c, BlackHeight(st), st.color) && TopColor(c, st.color).Black? && ExactOffC(c, q)
    ensures AfterFix(c, st, Moved(st, k), FixedCtx(c, st, k), FixedNode(c, st, k), q)
  {
    LeafChildCases(st);
    if st.color.Black? {
      TargetShort(c, st, q);
      FixedRestores(c, Moved(st, k), 0, Moved(st, k).color, q);
    }
  }

  /** The removal restores balance and joins the two leaves at the pivot, for every balanced tree. */
  lemma RemovedTree(c: Ctx, t: Tree, k: Ptr)
    requires t.Fork? && Distinct(t) && Balanced(t) && Fits(c, BlackHeight(t), t.color) && TopColor(c, t.color).Black?
    requires ExactC(c) && ExactOff(t.left, LastLeaf(t.left).p) && ExactOff(t.right, FirstLeaf(t.right).p)
    ensures var w := Removed(c, t, k); var k' := Moved(Target(t), k).p;
      && Balanced(w) && TreeColor(w).Black? && ExactOff(w, Keeper(t, k'))
      && SameFlat(Plug(TargetCtx(c, t), Lone(Target(t), k')), w)
  {
    var cx, st, k' := TargetCtx(c, t), Target(t), Moved(Target(t), k).p;
    TargetBalanced(c, t);
    BalancedPlain(st);
    TargetOff(c, t, k');
    FixedIsAfterFix(cx, st, k, Keeper(t, k'));
    Settled(cx, st, Moved(st, k), FixedCtx(cx, st, k), FixedNode(cx, st, k), Keeper(t, k'), Removed(c, t, k));
  }
}
