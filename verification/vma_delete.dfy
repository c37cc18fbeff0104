/** The deletion fix-up seen from the node that lost a black level: contexts, balance, gap data. */
module VmaDelete {
  import opened Wrappers
  import opened VmaNodes
  import opened VmaShape
  import opened VmaBalance
  import opened VmaGaps

  // ----- contexts put together -----

  lemma {:induction false} ZipAppend(s: Store, root: Ptr, d: Ctx, c: Ctx, t: Tree)
    requires Zip(s, root, c, Plug(d, t))
    ensures Zip(s, root, Append(d, c), t)
    decreases d
  {
    if d.Step? {
      var p := Pull(d, t);
      ZipAppend(s, root, d.up, c, p);
      ZipDown(s, root, Append(d.up, c), p, d.side);
      assert Push(d.side, p, Append(d.up, c)) == Append(d, c);
    }
  }

  lemma {:induction false} AppendParent(d: Ctx, c: Ctx)
    ensures ParentOf(Append(d, c)) == if d.Step? then ParentOf(d) else ParentOf(c)
    ensures Append(c, Top) == c
  {
    if c.Step? {
      AppendParent(d, c.up);
    }
  }

  lemma {:induction false} AppendAssoc(a: Ctx, b: Ctx, c: Ctx)
    ensures Append(Append(a, b), c) == Append(a, Append(b, c))
  {
    if a.Step? {
      AppendAssoc(a.up, b, c);
    }
  }

  // ----- the focus is one black level short -----

  /** Context `c` misses one black level at a focus of height `h`; gap data are exact off `q`. */
  ghost predicate Short(c: Ctx, h: nat, q: Ptr) {
    Fits(c, h + 1, Black) && TopColor(c, Black).Black? && ExactOffC(c, q)
  }

  /** The sibling of a short focus is a branch, and if black it has branches for red children. */
  lemma SiblingIsBranch(c: Ctx, h: nat)
    requires Fits(c, h + 1, Black) && c.Step?
    ensures c.sib.Fork? && !c.sib.temp && Balanced(c.sib)
    ensures c.sib.color.Red? ==> c.color.Black? && c.sib.left.Fork? && c.sib.right.Fork?
    ensures c.sib.left.Fork? ==> !c.sib.left.temp
    ensures c.sib.right.Fork? ==> !c.sib.right.temp
  {
    assert BlackHeight(c.sib) == h + 1;
    assert Balanced(c.sib.left) && Balanced(c.sib.right);
  }

  /** What the code reads of the sibling's children. */
  lemma NephewView(s: Store, root: Ptr, c: Ctx, t: Tree)
    requires Zip(s, root, c, t) && c.Step? && c.sib.Fork? && !c.sib.temp
    ensures c.sib.p in s && s[c.sib.p] == NodeOf(c.sib, Some(c.p))
    ensures c.sib.left.p in s && NodeColor(s[c.sib.left.p]) == TreeColor(c.sib.left)
    ensures c.sib.right.p in s && NodeColor(s[c.sib.right.p]) == TreeColor(c.sib.right)
  {
    assert Rep(s, c.sib, Some(c.p));
    assert Rep(s, c.sib.left, Some(c.sib.p)) && Rep(s, c.sib.right, Some(c.sib.p));
  }

  /** Sibling black, parent red, rotated towards the focus. */
  function RedSiblingTurned(c: Ctx, t: Tree): Tree
    requires c.Step? && c.sib.Fork?
  {
    var g := Pull(c.(color := Red, sib := c.sib.(color := Black)), t);
    if c.side.Left? then RotL(g) else RotR(g)
  }

  /** The context of the unchanged grandchild on side `side` of `r`. */
  function Twice(side: Side, r: Tree, up: Ctx): Ctx
    requires r.Fork? && Child(side, r).Fork?
  {
    Push(side, Child(side, r), Push(side, r, up))
  }

  lemma RedSiblingKeeps(c: Ctx, t: Tree, h: nat, q: Ptr)
    requires Short(c, h, q) && c.Step? && c.sib.Fork? && c.sib.color.Red?
    ensures var r := RedSiblingTurned(c, t);
      && r.Fork? && Child(c.side, r).Fork? && Child(c.side, Child(c.side, r)) == t
      && var c' := Twice(c.side, r, c.up);
         && Short(c', h, q) && c'.color.Red? && c'.sib.Fork? && c'.sib.color.Black?
         && SameFlatC(c, c') && ParentOf(c') == ParentOf(c)
  {
    SiblingIsBranch(c, h);
    var s := c.sib;
    assert Balanced(s.left) && Balanced(s.right);
    assert ExactOff(s.left, q) && ExactOff(s.right, q);
    assert Fits(c.up, h + 2, Black);
    var r := RedSiblingTurned(c, t);
    var c' := Twice(c.side, r, c.up);
    assert c'.up.up == c.up && c'.sib == Child(c.side, s) && c'.up.sib == Child(c.side.Other(), s);
    assert Fits(c'.up, h + 1, Red);
    TurnedFlatC(c, c');
  }

  /** Splitting the sibling over two levels of context. */
  lemma TurnedFlatC(c: Ctx, c': Ctx)
    requires c.Step? && c.sib.Fork? && c'.Step? && c'.up.Step? && c'.up.up == c.up
    requires c'.side == c'.up.side == c.side && c'.p == c.p && c'.pivot == c.pivot
    requires Slots(c.sib) == if c.side.Left? then Slots(c'.sib) + Slots(c'.up.sib) else Slots(c'.up.sib) + Slots(c'.sib)
    requires Pivots(c.sib) == if c.side.Left? then Pivots(c'.sib) + [c'.up.pivot] + Pivots(c'.up.sib)
                              else Pivots(c'.up.sib) + [c'.up.pivot] + Pivots(c'.sib)
    requires Ptrs(c.sib) == {c'.up.p} + Ptrs(c'.sib) + Ptrs(c'.up.sib)
    requires Forks(c.sib) == {c'.up.p} + Forks(c'.sib) + Forks(c'.up.sib)
    ensures SameFlatC(c, c')
  {
    var u := c.up;
    if c.side.Left? {
      Regroup(Slots(c'.sib), Slots(c'.up.sib), SlotsAfter(u), [], []);
      Regroup([c.pivot], Pivots(c'.sib), [c'.up.pivot], Pivots(c'.up.sib), PivotsAfter(u));
      assert PivotsAfter(c') == [c.pivot] + Pivots(c'.sib) + ([c'.up.pivot] + Pivots(c'.up.sib) + PivotsAfter(u));
    } else {
      Regroup(SlotsBefore(u), Slots(c'.up.sib), Slots(c'.sib), [], []);
      Regroup(PivotsBefore(u), Pivots(c'.up.sib), [c'.up.pivot], Pivots(c'.sib), [c.pivot]);
      assert PivotsBefore(c') == PivotsBefore(u) + Pivots(c'.up.sib) + [c'.up.pivot] + Pivots(c'.sib) + [c.pivot];
    }
  }

  /** The black sibling, turned if need be so that its far child is red. */
  function FarRed(side: Side, s: Tree): Tree
    requires s.Fork? && (TreeColor(Child(side.Other(), s)).Black? ==> Child(side, s).Fork?)
  {
    if TreeColor(Child(side.Other(), s)).Black? then
      var s' := WithChild(side, s.(color := Red), Child(side, s).(color := Black));
      if side.Left? then RotR(s') else RotL(s')
    else s
  }

  /** The sibling takes the parent's colour, parent and far child turn black, rotated towards the focus. */
  function BlackSiblingTurned(c: Ctx, t: Tree): Tree
    requires c.Step? && c.sib.Fork?
    requires TreeColor(Child(c.side.Other(), c.sib)).Black? ==> Child(c.side, c.sib).Fork?
    requires Child(c.side.Other(), FarRed(c.side, c.sib)).Fork?
  {
    var s := FarRed(c.side, c.sib);
    var far := Child(c.side.Other(), s).(color := Black);
    var g := Pull(c.(color := Black, sib := WithChild(c.side.Other(), s.(color := c.color), far)), t);
    if c.side.Left? then RotL(g) else RotR(g)
  }

  /** A black sibling with a red child. */
  ghost predicate RedNephew(c: Ctx) {
    && c.Step? && c.sib.Fork? && c.sib.color.Black?
    && (TreeColor(c.sib.left).Red? || TreeColor(c.sib.right).Red?)
  }

  lemma FarRedKeeps(side: Side, s: Tree, h: nat, q: Ptr)
    requires s.Fork? && s.color.Black? && Balanced(s) && BlackHeight(s) == h + 1 && ExactOff(s, q)
    requires TreeColor(s.left).Red? || TreeColor(s.right).Red?
    ensures var s' := FarRed(side, s);
      && s'.Fork? && Child(side.Other(), s').Fork? && TreeColor(Child(side.Other(), s')).Red?
      && Balanced(s'.left) && Balanced(s'.right)
      && BlackHeight(s'.left) == BlackHeight(s'.right) == h
      && ExactOff(s'.left, q) && ExactOff(s'.right, q)
      && SameFlat(s, s')
  {
    assert Balanced(s.left) && Balanced(s.right) && ExactOff(s.left, q) && ExactOff(s.right, q);
    if TreeColor(Child(side.Other(), s)).Black? {
      var near := Child(side, s);
      assert Balanced(near.left) && Balanced(near.right) && ExactOff(near.left, q) && ExactOff(near.right, q);
      PaintFlat(near, Black);
      var s0 := WithChild(side, s.(color := Red), near.(color := Black));
      if side.Left? { RotRFlat(s0); } else { RotLFlat(s0); }
    }
  }

  ghost predicate HasFarRed(c: Ctx) {
    && c.Step? && c.sib.Fork?
    && (TreeColor(Child(c.side.Other(), c.sib)).Black? ==> Child(c.side, c.sib).Fork?)
    && Child(c.side.Other(), FarRed(c.side, c.sib)).Fork?
  }

  lemma FarRedPlain(side: Side, s: Tree)
    requires Plain(s) && s.Fork? && (TreeColor(Child(side.Other(), s)).Black? ==> Child(side, s).Fork?)
    ensures FarRed(side, s).Fork? && Plain(FarRed(side, s))
  {
    assert Plain(s.left) && Plain(s.right);
    var s' := FarRed(side, s);
    assert Plain(s'.left) && Plain(s'.right);
  }

  lemma BlackSiblingShape(c: Ctx, t: Tree)
    requires HasFarRed(c)
    ensures var r := BlackSiblingTurned(c, t);
      && r.Fork? && Child(c.side, r).Fork? && Child(c.side, Child(c.side, r)) == t
      && var c', s := Twice(c.side, r, c.up), FarRed(c.side, c.sib);
         && c'.up.Step? && c'.up.up == c.up && c'.side == c'.up.side == c.side
         && c'.sib == Child(c.side, s) && c'.up.sib == Child(c.side.Other(), s).(color := Black)
         && c'.p == c.p && c'.pivot == c.pivot && c'.color.Black?
         && c'.up.p == s.p && c'.up.pivot == s.pivot && c'.up.color == c.color
  {
  }

  lemma BlackSiblingFlat(c: Ctx, t: Tree)
    requires HasFarRed(c) && SameFlat(c.sib, FarRed(c.side, c.sib))
    ensures var r := BlackSiblingTurned(c, t);
      && r.Fork? && Child(c.side, r).Fork? && SameFlatC(c, Twice(c.side, r, c.up))
  {
    BlackSiblingShape(c, t);
    var s := FarRed(c.side, c.sib);
    PaintFlat(Child(c.side.Other(), s), Black);
    TurnedFlatC(c, Twice(c.side, BlackSiblingTurned(c, t), c.up));
  }

  lemma BlackSiblingKeeps(c: Ctx, t: Tree, h: nat, color: Color, q: Ptr)
    requires Short(c, h, q) && RedNephew(c)
    ensures HasFarRed(c)
    ensures var r := BlackSiblingTurned(c, t);
      && r.Fork? && Child(c.side, r).Fork? && Child(c.side, Child(c.side, r)) == t
      && var c' := Twice(c.side, r, c.up);
         && Fits(c', h, color) && TopColor(c', Black).Black? && ExactOffC(c', q)
         && SameFlatC(c, c') && ParentOf(c') == ParentOf(c)
  {
    FarRedKeeps(c.side, c.sib, h, q);
    var s := FarRed(c.side, c.sib);
    BlackSiblingFlat(c, t);
    BlackSiblingShape(c, t);
    var far := Child(c.side.Other(), s).(color := Black);
    var c' := Twice(c.side, BlackSiblingTurned(c, t), c.up);
    assert Balanced(far) && BlackHeight(far) == h + 1 && ExactOff(far, q);
    FitsTwo(c', h, color, c);
  }

  lemma FitsTwo(c': Ctx, h: nat, color: Color, c: Ctx)
    requires c.Step? && Fits(c, h + 1, Black) && TopColor(c, Black).Black?
    requires c'.Step? && c'.up.Step? && c'.up.up == c.up && c'.color.Black? && c'.up.color == c.color
    requires Balanced(c'.sib) && BlackHeight(c'.sib) == h
    requires Balanced(c'.up.sib) && BlackHeight(c'.up.sib) == h + 1 && TreeColor(c'.up.sib).Black?
    ensures Fits(c', h, color) && TopColor(c', Black).Black?
  {
    assert Fits(c.up, h + 1 + (if c.color.Black? then 1 else 0), c.color);
    assert Fits(c'.up, h + 1, Black);
    assert TopColor(c', Black) == TopColor(c'.up, Black) == TopColor(c.up, c.color);
  }

  /** The sibling turns red; one level up the tree is short again, or the parent pays. */
  lemma RedderSibling(c: Ctx, h: nat, color: Color, q: Ptr)
    requires Short(c, h, q) && c.Step? && c.sib.Fork? && c.sib.color.Black?
    requires TreeColor(c.sib.left).Black? && TreeColor(c.sib.right).Black?
    ensures var c' := c.(sib := c.sib.(color := Red), color := Black);
      && SameFlatC(c, c') && ExactOffC(c', q)
      && Fits(c'.(up := Top), h, color)
      && (c.color.Red? ==> Fits(c', h, color) && TopColor(c', Black).Black?)
      && (c.color.Black? ==> Short(c.up, h + 1, q))
  {
    SiblingIsBranch(c, h);
    PaintFlat(c.sib, Red);
    var s := c.sib.(color := Red);
    assert Balanced(c.sib.left) && Balanced(c.sib.right) && Balanced(s) && BlackHeight(s) == h;
    assert ExactOff(s, q);
    assert Fits(c.up, h + 1 + (if c.color.Black? then 1 else 0), c.color);
    if c.color.Red? {
      FitsBlack(c.up, h + 1, Red);
      RootNotRed(c.up, Red);
    }
  }

  lemma RootNotRed(c: Ctx, color: Color)
    requires TopColor(c, color).Black?
    ensures TopColor(c, Black).Black?
  {
  }

  // ----- the loop -----

  /** `e` is `c` with the missing black level restored for a focus of height `h` and colour `color`. */
  ghost predicate Restored(c: Ctx, e: Ctx, h: nat, color: Color, q: Ptr) {
    && Fits(e, h, color) && TopColor(e, Black).Black? && ExactOffC(e, q)
    && SameFlatC(c, e) && ParentOf(e) == ParentOf(c)
  }

  /** The context once a red sibling has been rotated out of the way. */
  ghost function PastRed(c: Ctx, t: Tree): Ctx
    requires c.Step? && c.sib.Fork?
  {
    if c.sib.color.Red? then Twice(c.side, RedSiblingTurned(c, t), c.up) else c
  }

  ghost predicate BlackNephews(c: Ctx) {
    c.Step? && c.sib.Fork? && TreeColor(c.sib.left).Black? && TreeColor(c.sib.right).Black?
  }

  /** What one round makes of a context whose sibling is black. */
  ghost function Round(c: Ctx, t: Tree): Ctx {
    if BlackNephews(c) then c.(sib := c.sib.(color := Red), color := Black)
    else if HasFarRed(c) then Twice(c.side, BlackSiblingTurned(c, t), c.up)
    else c
  }

  /** The round leaves the level above one black short. */
  ghost predicate GoesOn(c: Ctx) {
    BlackNephews(c) && c.color.Black?
  }

  /** The context of `t` after the whole fix-up. */
  ghost function Fixed(c: Ctx, t: Tree): Ctx
    decreases c
  {
    if c.Top? || c.sib.Tip? then c
    else
      var c1 := PastRed(c, t);
      if GoesOn(c1) then Round(c1, t).(up := Fixed(c1.up, Pull(Round(c1, t), t))) else Round(c1, t)
  }

  lemma SameFlatTrans(a: Ctx, b: Ctx, c: Ctx)
    requires SameFlatC(a, b) && SameFlatC(b, c)
    ensures SameFlatC(a, c)
  {
  }

  lemma SameFlatUp(c: Ctx, c2: Ctx, e: Ctx)
    requires c.Step? && c2.Step? && c2 == c.(sib := c2.sib, color := c2.color) && SameFlatC(c, c2) && SameFlatC(c.up, e)
    ensures SameFlatC(c2, c2.(up := e))
  {
  }

  /** The fix-up restores the missing level, for every short context. */
  lemma {:induction false} FixedRestores(c: Ctx, t: Tree, h: nat, color: Color, q: Ptr)
    requires Short(c, h, q)
    ensures Restored(c, Fixed(c, t), h, color, q)
    decreases c
  {
    if c.Step? {
      SiblingIsBranch(c, h);
      var c1 := PastRed(c, t);
      if c.sib.color.Red? {
        RedSiblingKeeps(c, t, h, q);
      }
      SiblingIsBranch(c1, h);
      if !BlackNephews(c1) {
        BlackSiblingKeeps(c1, t, h, color, q);
      } else {
        RedderSibling(c1, h, color, q);
        if GoesOn(c1) {
          var c2 := Round(c1, t);
          FixedRestores(c1.up, Pull(c2, t), h + 1, Black, q);
          SameFlatUp(c1, c2, Fixed(c1.up, Pull(c2, t)));
          SameFlatTrans(c1, c2, Fixed(c, t));
        }
      }
      SameFlatTrans(c, c1, Fixed(c, t));
    }
  }

  /** One more round: the settled level joins the settled context below it. */
  lemma FixedOn(c: Ctx, d: Ctx, t: Tree, x: Tree)
    requires c.Step? && c.sib.Fork? && t == Plug(d, x) && GoesOn(PastRed(c, t))
    ensures var c2 := Round(PastRed(c, t), t); var d' := Append(d, c2.(up := Top));
      && Append(d, Fixed(c, t)) == Append(d', Fixed(c2.up, Pull(c2, t)))
      && Plug(d', x) == Pull(c2, t) && TopColor(d', TreeColor(x)).Black?
  {
    var c2 := Round(PastRed(c, t), t);
    var one := c2.(up := Top);
    AppendAssoc(d, one, Fixed(c2.up, Pull(c2, t)));
    PlugAppend(d, one, x);
    AppendTop(d, one, TreeColor(x));
  }

  lemma {:induction false} AppendTop(d: Ctx, c: Ctx, color: Color)
    ensures TopColor(Append(d, c), color) == TopColor(c, TopColor(d, color))
    decreases d
  {
    if d.Step? {
      AppendTop(d.up, c, d.color);
    }
  }

  lemma TopColorStep(d: Ctx, a: Color, b: Color)
    requires d.Step?
    ensures TopColor(d, a) == TopColor(d, b)
  {
  }

  /** At the root the colour change shows only if the root is the focus itself. */
  lemma RootBlackened(d: Ctx, x: Tree)
    requires x.Fork? && (d.Step? ==> TopColor(d, x.color).Black?)
    ensures Plug(d, x).Fork?
    ensures d.Step? ==> Plug(d, x).(color := Black) == Plug(d, x)
  {
    PlugBalanced(d, x);
    PlugFork(d, x);
  }
}
