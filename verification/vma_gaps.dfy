/** The cached size of the largest gap beneath each branch. */
module VmaGaps {
  import opened VmaNodes
  import opened VmaShape
  import opened VmaBalance

  /** Every branch caches the maximum of what its children cache. */
  ghost predicate Exact(t: Tree) {
    t.Fork? ==> t.maxEmpty == Max(Gap(t.left), Gap(t.right)) && Exact(t.left) && Exact(t.right)
  }

  /** Exact except, possibly, at node `q` and the branches above it. */
  ghost predicate ExactOff(t: Tree, q: Ptr) {
    t.Fork? ==>
      && (q in Ptrs(t) || t.maxEmpty == Max(Gap(t.left), Gap(t.right)))
      && ExactOff(t.left, q) && ExactOff(t.right, q)
  }

  ghost predicate ExactC(c: Ctx) {
    c.Step? ==> Exact(c.sib) && ExactC(c.up)
  }

  ghost predicate ExactOffC(c: Ctx, q: Ptr) {
    c.Step? ==> ExactOff(c.sib, q) && ExactOffC(c.up, q)
  }

  lemma {:induction false} ExactIsOff(t: Tree, q: Ptr)
    requires Exact(t)
    ensures ExactOff(t, q)
  {
    if t.Fork? {
      ExactIsOff(t.left, q);
      ExactIsOff(t.right, q);
    }
  }

  lemma {:induction false} OffIsExact(t: Tree, q: Ptr)
    requires ExactOff(t, q) && q !in Ptrs(t)
    ensures Exact(t)
  {
    if t.Fork? {
      OffIsExact(t.left, q);
      OffIsExact(t.right, q);
    }
  }

  lemma {:induction false} ExactIsOffC(c: Ctx, q: Ptr)
    requires ExactC(c)
    ensures ExactOffC(c, q)
  {
    if c.Step? {
      ExactIsOff(c.sib, q);
      ExactIsOffC(c.up, q);
    }
  }

  lemma {:induction false} OffIsExactC(c: Ctx, q: Ptr)
    requires ExactOffC(c, q) && q !in PtrsC(c)
    ensures ExactC(c)
  {
    if c.Step? {
      OffIsExact(c.sib, q);
      OffIsExactC(c.up, q);
    }
  }

  lemma {:induction false} PlugOff(c: Ctx, t: Tree, q: Ptr)
    requires ExactOff(Plug(c, t), q)
    ensures ExactOff(t, q) && ExactOffC(c, q)
    decreases c
  {
    if c.Step? {
      PlugOff(c.up, Pull(c, t), q);
    }
  }

  /** A focus with the same largest gap can be put in its place. */
  lemma {:induction false} SwapExact(c: Ctx, t: Tree, t': Tree)
    requires Exact(Plug(c, t)) && Exact(t') && Gap(t') == Gap(t)
    ensures Exact(Plug(c, t'))
    decreases c
  {
    if c.Step? {
      PlugExact(c.up, Pull(c, t));
      SwapExact(c.up, Pull(c, t), Pull(c, t'));
    }
  }

  lemma {:induction false} PlugExact(c: Ctx, t: Tree)
    requires Exact(Plug(c, t))
    ensures Exact(t) && ExactC(c)
    decreases c
  {
    if c.Step? {
      PlugExact(c.up, Pull(c, t));
    }
  }

  /** Around node `q` the focus may be replaced without touching the data above. */
  lemma {:induction false} ReplaceOff(c: Ctx, t: Tree, q: Ptr)
    requires q in Ptrs(t) && ExactOff(t, q) && ExactOffC(c, q)
    ensures ExactOff(Plug(c, t), q)
    decreases c
  {
    if c.Step? {
      ReplaceOff(c.up, Pull(c, t), q);
    }
  }

  /** Rotations recompute both branches they turn, so staleness does not spread. */
  lemma TurnedOff(c: Ctx, t: Tree, q: Ptr)
    requires c.Step? && c.up.Step? && t.Fork?
    requires ExactOff(t, q) && ExactOff(c.sib, q) && ExactOff(c.up.sib, q)
    ensures ExactOff(Turned(c, t), q)
  {
    var r := Turned(c, t);
    assert ExactOff(t.left, q) && ExactOff(t.right, q);
    assert ExactOff(r.left, q) && ExactOff(r.right, q);
  }

  lemma {:induction false} UpdatedOff(c: Ctx, t: Tree, q: Ptr)
    requires t.Fork? && ExactOff(t.left, q) && ExactOff(t.right, q) && ExactOffC(c, q)
    ensures ExactOff(Updated(c, t), q)
    decreases c
  {
    if c.Step? {
      UpdatedOff(c.up, Pull(c, Recalc(t)), q);
    }
  }

  lemma {:induction false} UpdatedExact(c: Ctx, t: Tree)
    requires t.Fork? && Exact(t.left) && Exact(t.right) && ExactC(c)
    ensures Exact(Updated(c, t))
    decreases c
  {
    if c.Step? {
      UpdatedExact(c.up, Pull(c, Recalc(t)));
    }
  }

  /** The largest gap among some leaves, from the leaves alone. */
  ghost function LargestGap(slots: seq<Slot>): nat {
    if slots == [] then 0
    else Max(match slots[0].leaf case Empty(n) => n case Used(_) => 0, LargestGap(slots[1..]))
  }

  lemma {:induction false} LargestGapConcat(a: seq<Slot>, b: seq<Slot>)
    ensures LargestGap(a + b) == Max(LargestGap(a), LargestGap(b))
  {
    if a == [] {
      assert a + b == b;
    } else {
      assert (a + b)[1..] == a[1..] + b;
      LargestGapConcat(a[1..], b);
    }
  }

  /** Every branch holds the size of the largest empty leaf beneath it. */
  ghost predicate Honest(t: Tree) {
    t.Fork? ==> t.maxEmpty == LargestGap(Slots(t)) && Honest(t.left) && Honest(t.right)
  }

  lemma {:induction false} ExactIffHonest(t: Tree)
    ensures Exact(t) <==> Honest(t)
    ensures Exact(t) ==> Gap(t) == LargestGap(Slots(t))
  {
    if t.Fork? {
      ExactIffHonest(t.left);
      ExactIffHonest(t.right);
      LargestGapConcat(Slots(t.left), Slots(t.right));
    }
  }
}
