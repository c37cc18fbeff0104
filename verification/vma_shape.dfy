/**
What the tree operations do to the shape of the tree, and what they keep:
the in-order leaves and pivots, and the set of nodes.
*/
module VmaShape {
  import opened Wrappers
  import opened VmaNodes

  /** A leaf as met from left to right. */
  datatype Slot = Slot(p: Ptr, leaf: Leaf)

  ghost function Slots(t: Tree): (r: seq<Slot>)
    ensures |r| > 0
  {
    match t
    case Tip(p, leaf) => [Slot(p, leaf)]
    case Fork(_, _, _, _, _, l, r) => Slots(l) + Slots(r)
  }

  ghost function Pivots(t: Tree): (r: seq<nat>)
    ensures |r| + 1 == |Slots(t)|
  {
    match t
    case Tip(_, _) => []
    case Fork(_, pv, _, _, _, l, r) => Pivots(l) + [pv] + Pivots(r)
  }

  ghost function Forks(t: Tree): set<Ptr> {
    if t.Tip? then {} else {t.p} + Forks(t.left) + Forks(t.right)
  }

  ghost function ForksC(c: Ctx): set<Ptr> {
    if c.Top? then {} else {c.p} + Forks(c.sib) + ForksC(c.up)
  }

  lemma {:induction false} PlugForks(c: Ctx, t: Tree)
    ensures Forks(Plug(c, t)) == ForksC(c) + Forks(t)
    decreases c
  {
    if c.Step? {
      PlugForks(c.up, Pull(c, t));
    }
  }

  lemma {:induction false} ForkIsBranch(s: Store, t: Tree, up: Option<Ptr>, q: Ptr)
    requires Rep(s, t, up) && q in Forks(t)
    ensures q in s && s[q].Branch?
  {
    if q != t.p {
      if q in Forks(t.left) {
        ForkIsBranch(s, t.left, Some(t.p), q);
      } else {
        ForkIsBranch(s, t.right, Some(t.p), q);
      }
    }
  }

  // Leaves and pivots before and after the focus.

  ghost function SlotsBefore(c: Ctx): seq<Slot> {
    if c.Top? then []
    else if c.side.Left? then SlotsBefore(c.up)
    else SlotsBefore(c.up) + Slots(c.sib)
  }

  ghost function SlotsAfter(c: Ctx): seq<Slot> {
    if c.Top? then []
    else if c.side.Left? then Slots(c.sib) + SlotsAfter(c.up)
    else SlotsAfter(c.up)
  }

  ghost function PivotsBefore(c: Ctx): (r: seq<nat>)
    ensures |r| == |SlotsBefore(c)|
  {
    if c.Top? then []
    else if c.side.Left? then PivotsBefore(c.up)
    else PivotsBefore(c.up) + Pivots(c.sib) + [c.pivot]
  }

  ghost function PivotsAfter(c: Ctx): (r: seq<nat>)
    ensures |r| == |SlotsAfter(c)|
  {
    if c.Top? then []
    else if c.side.Left? then [c.pivot] + Pivots(c.sib) + PivotsAfter(c.up)
    else PivotsAfter(c.up)
  }

  lemma Regroup<T>(a: seq<T>, b: seq<T>, c: seq<T>, d: seq<T>, e: seq<T>)
    ensures a + (b + c + d) + e == a + b + (c + d + e) == (a + b + c) + d + e
    ensures a + b + (c + d + e) == (a + b + c) + d + e
    ensures (a + b) + c == a + (b + c)
  {
  }

  lemma {:induction false} PlugFlat(c: Ctx, t: Tree)
    ensures Slots(Plug(c, t)) == SlotsBefore(c) + Slots(t) + SlotsAfter(c)
    ensures Pivots(Plug(c, t)) == PivotsBefore(c) + Pivots(t) + PivotsAfter(c)
    decreases c
  {
    if c.Step? {
      PlugFlat(c.up, Pull(c, t));
      if c.side.Left? {
        Regroup(SlotsBefore(c.up), Slots(t), [], Slots(c.sib), SlotsAfter(c.up));
        Regroup(PivotsBefore(c.up), Pivots(t), [c.pivot], Pivots(c.sib), PivotsAfter(c.up));
      } else {
        Regroup(SlotsBefore(c.up), Slots(c.sib), [], Slots(t), SlotsAfter(c.up));
        Regroup(PivotsBefore(c.up), Pivots(c.sib), [c.pivot], Pivots(t), PivotsAfter(c.up));
      }
    }
  }

  /** Two trees with the same leaves and the same pivots from left to right. */
  ghost predicate SameFlat(t: Tree, t': Tree) {
    Slots(t) == Slots(t') && Pivots(t) == Pivots(t') && Ptrs(t) == Ptrs(t') && Forks(t) == Forks(t')
  }

  lemma PaintFlat(t: Tree, color: Color)
    requires t.Fork?
    ensures SameFlat(t, t.(color := color))
  {
  }

  lemma PullFlat(c: Ctx, t: Tree, t': Tree)
    requires c.Step? && SameFlat(t, t')
    ensures SameFlat(Pull(c, t), Pull(c, t'))
  {
  }

  ghost predicate SameFlatC(c: Ctx, c': Ctx) {
    && SlotsBefore(c) == SlotsBefore(c') && SlotsAfter(c) == SlotsAfter(c')
    && PivotsBefore(c) == PivotsBefore(c') && PivotsAfter(c) == PivotsAfter(c')
    && PtrsC(c) == PtrsC(c') && ForksC(c) == ForksC(c')
  }

  lemma PlugSameFlat(c: Ctx, t: Tree, t': Tree)
    requires SameFlat(t, t')
    ensures SameFlat(Plug(c, t), Plug(c, t'))
  {
    PlugFlat(c, t);
    PlugFlat(c, t');
    PlugPtrs(c, t);
    PlugPtrs(c, t');
    PlugForks(c, t);
    PlugForks(c, t');
  }

  // ----- recomputed gaps and rotations -----

  function Recalc(t: Tree): Tree
    requires t.Fork?
  {
    t.(maxEmpty := Max(Gap(t.left), Gap(t.right)))
  }

  function RotL(t: Tree): Tree
    requires t.Fork? && t.right.Fork?
  {
    Recalc(t.right.(left := Recalc(t.(right := t.right.left))))
  }

  function RotR(t: Tree): Tree
    requires t.Fork? && t.left.Fork?
  {
    Recalc(t.left.(right := Recalc(t.(left := t.left.right))))
  }

  lemma RotLFlat(t: Tree)
    requires t.Fork? && t.right.Fork?
    ensures SameFlat(t, RotL(t))
  {
    var a, b, c := t.left, t.right.left, t.right.right;
    Regroup(Slots(a), Slots(b), Slots(c), [], []);
    Regroup(Pivots(a), [t.pivot], Pivots(b), [t.right.pivot], Pivots(c));
  }

  lemma RotRFlat(t: Tree)
    requires t.Fork? && t.left.Fork?
    ensures SameFlat(t, RotR(t))
  {
    var a, b, c := t.left.left, t.left.right, t.right;
    Regroup(Slots(a), Slots(b), Slots(c), [], []);
    Regroup(Pivots(a), [t.left.pivot], Pivots(b), [t.pivot], Pivots(c));
  }

  lemma RotLDistinct(t: Tree)
    requires t.Fork? && t.right.Fork? && Distinct(t)
    ensures Distinct(RotL(t))
  {
    var r := t.right;
    assert r.p !in Ptrs(t.left) && t.p !in Ptrs(r.right);
  }

  lemma RotRDistinct(t: Tree)
    requires t.Fork? && t.left.Fork? && Distinct(t)
    ensures Distinct(RotR(t))
  {
    var l := t.left;
    assert l.p !in Ptrs(t.right) && t.p !in Ptrs(l.left);
  }

  /** The gap data recomputed at the focus and at every branch above it. */
  function Updated(c: Ctx, t: Tree): Tree
    requires t.Fork?
    decreases c
  {
    if c.Top? then Recalc(t) else Updated(c.up, Pull(c, Recalc(t)))
  }

  /** The tree around `t` with the gap data above it recomputed. */
  ghost function Above(c: Ctx, t: Tree): Tree {
    if c.Top? then t else Updated(c.up, Pull(c, t))
  }

  lemma {:induction false} UpdatedFlat(c: Ctx, t: Tree)
    requires t.Fork?
    ensures SameFlat(Updated(c, t), Plug(c, t))
    decreases c
  {
    if c.Step? {
      UpdatedFlat(c.up, Pull(c, Recalc(t)));
      PlugSameFlat(c.up, Pull(c, Recalc(t)), Pull(c, t));
    }
  }
}
