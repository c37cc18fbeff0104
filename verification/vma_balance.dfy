/** Red-black balance of the tree, of a context around a subtree, and of the two fix-up loops. */
module VmaBalance {
  import opened Arithmetic
  import opened VmaNodes
  import opened VmaShape

  ghost function BlackHeight(t: Tree): nat {
    if t.Tip? then 0 else BlackHeight(t.left) + if t.color.Black? then 1 else 0
  }

  /** Leaves are black, no red branch has a red child, all paths carry equally many black branches. */
  ghost predicate Balanced(t: Tree) {
    t.Fork? ==>
      && !t.temp
      && Balanced(t.left) && Balanced(t.right)
      && BlackHeight(t.left) == BlackHeight(t.right)
      && (t.color.Red? ==> TreeColor(t.left).Black? && TreeColor(t.right).Black?)
  }

  /** `c` becomes balanced when filled by a balanced tree of that height and colour. */
  ghost predicate Fits(c: Ctx, height: nat, color: Color)
    decreases c
  {
    c.Step? ==>
      && Balanced(c.sib) && BlackHeight(c.sib) == height
      && (c.color.Red? ==> color.Black? && TreeColor(c.sib).Black?)
      && Fits(c.up, height + if c.color.Black? then 1 else 0, c.color)
  }

  function TopColor(c: Ctx, color: Color): Color
    decreases c
  {
    if c.Top? then color else TopColor(c.up, c.color)
  }

  lemma {:induction false} PlugBalanced(c: Ctx, t: Tree)
    ensures Balanced(Plug(c, t)) <==> Balanced(t) && Fits(c, BlackHeight(t), TreeColor(t))
    ensures TreeColor(Plug(c, t)) == TopColor(c, TreeColor(t))
    decreases c
  {
    if c.Step? {
      PlugBalanced(c.up, Pull(c, t));
    }
  }

  /** Colour and height are all a context sees; black fits wherever red does. */
  lemma FitsBlack(c: Ctx, height: nat, color: Color)
    requires Fits(c, height, color)
    ensures Fits(c, height, Black)
  {
  }

  lemma {:induction false} BalancedPlain(t: Tree)
    requires Balanced(t)
    ensures Plain(t)
  {
    if t.Fork? {
      BalancedPlain(t.left);
      BalancedPlain(t.right);
    }
  }

  /** Gap data do not matter for balance. */
  lemma {:induction false} UpdatedBalanced(c: Ctx, t: Tree)
    requires t.Fork?
    ensures Balanced(Updated(c, t)) <==> Balanced(Plug(c, t))
    ensures TreeColor(Updated(c, t)) == TreeColor(Plug(c, t))
    decreases c
  {
    if c.Step? {
      var u := Pull(c, Recalc(t));
      UpdatedBalanced(c.up, u);
      PlugBalanced(c.up, u);
      PlugBalanced(c.up, Pull(c, t));
    }
  }

  // ----- insertion -----

  /** Balanced but for a red focus that may sit below a red parent. */
  ghost predicate RedFocus(c: Ctx, t: Tree) {
    && t.Fork? && t.color.Red? && Balanced(t)
    && Fits(c, BlackHeight(t), Black)
    && TopColor(c, Black).Black?
  }

  /** The grandparent after the parent and the uncle turned black. */
  function Recolored(c: Ctx, t: Tree): Tree
    requires c.Step? && c.up.Step? && c.up.sib.Fork?
  {
    var g := c.up;
    Join(g.side, g.p, g.pivot, Red, g.maxEmpty, Pull(c, t).(color := Black), g.sib.(color := Black))
  }

  lemma RedParent(c: Ctx, t: Tree)
    requires RedFocus(c, t) && c.Step? && c.color.Red?
    ensures c.up.Step? && c.up.color.Black?
    ensures c.up.sib.Fork? ==> !c.up.sib.temp
    ensures Fits(c.up, BlackHeight(t), Red)
  {
    assert Fits(c.up, BlackHeight(t), Red) && TopColor(c.up, Red).Black?;
  }

  lemma RecoloredFocus(c: Ctx, t: Tree)
    requires RedFocus(c, t) && c.Step? && c.color.Red?
    requires c.up.Step? && c.up.sib.Fork? && c.up.sib.color.Red?
    ensures RedFocus(c.up.up, Recolored(c, t))
  {
    RedParent(c, t);
    assert Fits(c.up.up, BlackHeight(t) + 1, Black) && TopColor(c.up, Red) == TopColor(c.up.up, Black);
    assert Balanced(c.up.sib);
    var p0 := Pull(c, t);
    var p, u := p0.(color := Black), c.up.sib.(color := Black);
    assert Balanced(p) && Balanced(u) && BlackHeight(p) == BlackHeight(u);
  }

  /** What the rotations of the black-uncle case make of the grandparent. */
  function TurnedRight(c: Ctx, t: Tree): Tree
    requires c.Step? && c.up.Step? && t.Fork? && c.up.side.Right?
  {
    var p := Pull(c, t);
    var p1 := if c.side.Left? then RotR(p) else p;
    var g := Pull(c.up, p1.(color := Black));
    RotL(g.(color := Red))
  }

  function TurnedLeft(c: Ctx, t: Tree): Tree
    requires c.Step? && c.up.Step? && t.Fork? && c.up.side.Left?
  {
    var p := Pull(c, t);
    var p1 := if c.side.Right? then RotL(p) else p;
    var g := Pull(c.up, p1.(color := Black));
    RotR(g.(color := Red))
  }

  function Turned(c: Ctx, t: Tree): Tree
    requires c.Step? && c.up.Step? && t.Fork?
  {
    if c.up.side.Right? then TurnedRight(c, t) else TurnedLeft(c, t)
  }

  /** After the rotations the focus is red below a now black parent, and the loop ends. */
  lemma TurnedFocus(c: Ctx, t: Tree)
    requires RedFocus(c, t) && c.Step? && c.color.Red?
    requires c.up.Step? && TreeColor(c.up.sib).Black?
    ensures var r := Turned(c, t);
      r.Fork? && r.color.Black? && Child(c.up.side, r).Fork? &&
      RedFocus(Push(c.up.side, r, c.up.up), Child(c.up.side, r))
  {
    RedParent(c, t);
    var h := BlackHeight(t);
    assert Fits(c.up, h, Red) && Fits(c.up.up, h + 1, Black);
    assert TopColor(c.up, Red) == TopColor(c.up.up, Black);
    var r := Turned(c, t);
    assert Balanced(t.left) && Balanced(t.right) && Balanced(c.sib) && Balanced(c.up.sib);
    assert Balanced(r.left) && Balanced(r.right);
  }

  lemma RecoloredFlat(c: Ctx, t: Tree)
    requires c.Step? && c.up.Step? && c.up.sib.Fork?
    ensures SameFlat(Pull(c.up, Pull(c, t)), Recolored(c, t))
  {
    var p := Pull(c, t);
    PaintFlat(p, Black);
    PaintFlat(c.up.sib, Black);
  }

  lemma TurnedFlat(c: Ctx, t: Tree)
    requires c.Step? && c.up.Step? && t.Fork?
    ensures SameFlat(Pull(c.up, Pull(c, t)), Turned(c, t))
  {
    var p := Pull(c, t);
    var p1 := if c.side == c.up.side then p else if c.side.Left? then RotR(p) else RotL(p);
    if c.side != c.up.side {
      if c.side.Left? { RotRFlat(p); } else { RotLFlat(p); }
    }
    var p2 := p1.(color := Black);
    PaintFlat(p1, Black);
    PullFlat(c.up, p, p2);
    var g := Pull(c.up, p2);
    PaintFlat(g, Red);
    if c.up.side.Right? { RotLFlat(g.(color := Red)); } else { RotRFlat(g.(color := Red)); }
  }

  // ----- height -----

  ghost function Branches(t: Tree): nat {
    if t.Tip? then 0 else 1 + Branches(t.left) + Branches(t.right)
  }

  ghost function Height(t: Tree): nat {
    if t.Tip? then 0 else 1 + Max(Height(t.left), Height(t.right))
  }

  lemma {:induction false} BlackHeightBounds(t: Tree)
    requires Balanced(t)
    ensures Pow2(BlackHeight(t)) <= Branches(t) + 1
    ensures Height(t) <= 2 * BlackHeight(t) + if TreeColor(t).Red? then 1 else 0
  {
    if t.Fork? {
      BlackHeightBounds(t.left);
      BlackHeightBounds(t.right);
    }
  }

  /** Height is at most twice the binary logarithm of the number of branches plus one. */
  lemma LogarithmicHeight(t: Tree)
    requires Balanced(t) && TreeColor(t).Black?
    ensures Pow2((Height(t) + 1) / 2) <= Branches(t) + 1
  {
    BlackHeightBounds(t);
    Pow2Grows((Height(t) + 1) / 2, BlackHeight(t));
  }
}
