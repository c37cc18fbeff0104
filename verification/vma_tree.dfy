/** The virtual-memory tree: search, rotations, insertion and deletion on the node arena. */
module VmaTree {
  import opened Wrappers
  import opened Arithmetic
  import opened VmaNodes
  import opened VmaShape
  import opened VmaLinks
  import opened VmaBalance
  import opened VmaGaps
  import opened VmaLayout
  import opened VmaInsert
  import opened VmaDelete
  import opened VmaRemove
  import opened VmaJoin
  import opened VmaTemp
  import opened VmaSafety

  class VMATree {
    var root: Ptr
    var store: Store
    ghost var shape: Tree

    /**
     * Where a deletion gets its temporary node. The kernel has one node for this, kept outside the
     * storage pages. Without it (`None`) every deletion takes a node that is not in use.
     */
    const sharedTemp: Option<Ptr>

    /** How many nodes the storage pages, and the pages that can still be had for nodes, have left. */
    var nodesLeft: nat

    /** Nodes in use and nodes left; the shared node is neither. */
    ghost function Nodes(): nat
      reads this
    {
      nodesLeft + |StorageNodes(store.Keys, sharedTemp)|
    }

    /** Nothing is lost. Where a deletion takes an unused node from elsewhere, something may be gained. */
    ghost predicate NodesKept(before: nat)
      reads this
    {
      if sharedTemp.Some? then Nodes() == before else Nodes() >= before
    }

    /** The arena holds exactly the tree `shape`, and every invariant of the tree holds. */
    ghost predicate Valid()
      reads this
    {
      && Sound(store, root, shape)
      && NoAdjacentGaps(Areas(shape))
      && (Sized(Areas(shape)) || NeverInserted(shape))
      && LeafOnly(sharedTemp, shape)
    }

    /** A new tree is one gap. Its recorded size is one less than the range that a search finds for it. */
    constructor (sharedTemp: Option<Ptr>, nodesLeft: nat)
      ensures this.nodesLeft == nodesLeft
      ensures Valid() && NeverInserted(shape) && Segments(Areas(shape)) == {}
      ensures Areas(shape) == [Area(0, 0x8000_0000_0000, Empty(0x7fff_ffff_ffff))]
      ensures this.sharedTemp == sharedTemp && !Linked(sharedTemp, shape)
    {
      this.sharedTemp, this.nodesLeft := sharedTemp, nodesLeft;
      var node := if sharedTemp == Some(0) then 1 else 0;
      root, store := node, map[node := LeafNode(Empty(HIGHEST_USER_ADDRESS))];
      shape := Tip(node, Empty(HIGHEST_USER_ADDRESS));
    }

    // ----- search -----

    method GetLeafContaining(addr: nat, ghost w: Tree)
      returns (leaf: Ptr, parentAndSide: Option<(Ptr, Side)>, start: nat, end: nat, ghost c: Ctx, ghost t: Tree)
      requires Zip(store, root, Top, w) && Plain(w) && Ordered(Pivots(w)) && addr <= HIGHEST_USER_ADDRESS
      ensures Zip(store, root, c, t) && Plug(c, t) == w && t.Tip? && t.p == leaf
      ensures parentAndSide == ParentSide(c)
      ensures LowOf(c) == start <= addr <= end && end + 1 == HighOf(c)
      ensures HoldsAddress(w, leaf, start, end + 1, addr) && LeafFor(Top, w, addr) == (c, t)
    {
      var currentEnd := HIGHEST_USER_ADDRESS + 1;
      leaf, parentAndSide, start := root, None, 0;
      c, t := Top, w;
      Upward(store, root, c, t);
      while store[leaf].Branch?
        invariant Zip(store, root, c, t) && Plug(c, t) == w && Plain(t) && t.p == leaf && leaf in store
        invariant store[leaf].Branch? == t.Fork?
        invariant parentAndSide == ParentSide(c)
        invariant LowOf(c) == start <= addr < currentEnd == HighOf(c) && LeafFor(c, t, addr) == LeafFor(Top, w, addr)
        decreases t
      {
        Upward(store, root, c, t);
        PivotBetween(c, t);
        var branch := store[leaf];
        if addr < branch.pivot {
          assert branch.pivot <= currentEnd;
          ZipDown(store, root, c, t, Left);
          currentEnd := branch.pivot;
          parentAndSide := Some((leaf, Left));
          leaf := branch.left;
          c, t := Push(Left, t, c), t.left;
        } else {
          assert branch.pivot >= start;
          ZipDown(store, root, c, t, Right);
          start := branch.pivot;
          parentAndSide := Some((leaf, Right));
          leaf := branch.right;
          c, t := Push(Right, t, c), t.right;
        }
        Upward(store, root, c, t);
      }
      end := currentEnd - 1;
      HoldsFound(c, t, addr);
    }

    // ----- single writes -----

    method SetColor(q: Ptr, color: Color, ghost c: Ctx, ghost t: Tree)
      requires Zip(store, root, c, t) && t.Fork? && t.p == q
      modifies this`store
      ensures Zip(store, root, c, t.(color := color))
      ensures store.Keys == old(store.Keys)
    {
      ZipSet(store, root, c, t, t.(color := color));
      store := store[q := store[q].(color := color)];
    }

    /** SetColor on a child of the focus. */
    method SetChildColor(q: Ptr, color: Color, ghost c: Ctx, ghost t: Tree, ghost side: Side)
      requires Zip(store, root, c, t) && t.Fork? && !t.temp
      requires Child(side, t).Fork? && Child(side, t).p == q
      modifies this`store
      ensures Zip(store, root, c, WithChild(side, t, Child(side, t).(color := color)))
      ensures store.Keys == old(store.Keys)
    {
      ZipDown(store, root, c, t, side);
      ghost var k := Child(side, t).(color := color);
      SetColor(q, color, Push(side, t, c), Child(side, t));
      ZipUp(store, root, Push(side, t, c), k);
      assert Pull(Push(side, t, c), k) == WithChild(side, t, k);
    }

    // ----- rotations -----

    method LeftRotateNodes(node: Ptr, ghost c: Ctx, ghost t: Tree)
      requires t.Fork? && t.right.Fork? && !t.temp && !t.right.temp && t.p == node && RotLBefore(store, c, t)
      modifies this`store, this`root
      ensures RotLAfter(old(store), store, old(root), root, c, t)
    {
      var s := store;
      var right := s[node].right;
      var inner := s[right].left;
      s := s[node := s[node].(right := inner)];
      s := s[inner := Reparented(s[inner], Some(node))];
      s := s[right := s[right].(parent := s[node].parent)];
      if IsLeftSide(s, node).None? {
        root := right;
      }
      s := RelinkParent(s, node, right);
      s := s[right := s[right].(left := node)];
      s := s[node := s[node].(parent := Some(right))];
      s := RecalculateMaxEmptyAreaSize(s, node);
      s := RecalculateMaxEmptyAreaSize(s, right);
      store := s;
    }

    method LeftRotate(node: Ptr, ghost c: Ctx, ghost t: Tree)
      requires Zip(store, root, c, t)
      requires t.Fork? && !t.temp && t.right.Fork? && !t.right.temp && t.p == node
      modifies this`store, this`root
      ensures Zip(store, root, c, RotL(t))
      ensures store.Keys == old(store.Keys)
    {
      RotLView(store, root, c, t);
      LeftRotateNodes(node, c, t);
      RotLZip(old(store), store, old(root), root, c, t);
    }

    method RightRotateNodes(node: Ptr, ghost c: Ctx, ghost t: Tree)
      requires t.Fork? && t.left.Fork? && !t.temp && !t.left.temp && t.p == node && RotRBefore(store, c, t)
      modifies this`store, this`root
      ensures RotRAfter(old(store), store, old(root), root, c, t)
    {
      var s := store;
      var left := s[node].left;
      var inner := s[left].right;
      s := s[node := s[node].(left := inner)];
      s := s[inner := Reparented(s[inner], Some(node))];
      s := s[left := s[left].(parent := s[node].parent)];
      if IsLeftSide(s, node).None? {
        root := left;
      }
      s := RelinkParent(s, node, left);
      s := s[left := s[left].(right := node)];
      s := s[node := s[node].(parent := Some(left))];
      s := RecalculateMaxEmptyAreaSize(s, node);
      s := RecalculateMaxEmptyAreaSize(s, left);
      store := s;
    }

    method RightRotate(node: Ptr, ghost c: Ctx, ghost t: Tree)
      requires Zip(store, root, c, t)
      requires t.Fork? && !t.temp && t.left.Fork? && !t.left.temp && t.p == node
      modifies this`store, this`root
      ensures Zip(store, root, c, RotR(t))
      ensures store.Keys == old(store.Keys)
    {
      RotRView(store, root, c, t);
      RightRotateNodes(node, c, t);
      RotRZip(old(store), store, old(root), root, c, t);
    }

    // ----- gap data -----

    method UpdateMaxEmptyAreaData(lowest: Ptr, ghost c: Ctx, ghost t: Tree)
      requires Zip(store, root, c, t) && t.Fork? && !t.temp && t.p == lowest
      modifies this`store
      ensures Zip(store, root, Top, Updated(c, t))
      ensures store.Keys == old(store.Keys)
    {
      var current := Some(lowest);
      ghost var cc, tt := c, t;
      while current.Some?
        invariant store.Keys == old(store.Keys)
        invariant current.Some? ==>
          && tt.Fork? && !tt.temp && Zip(store, root, cc, tt) && tt.p == current.value
          && Updated(cc, tt) == Updated(c, t)
        invariant current.None? ==> Zip(store, root, Top, Updated(c, t))
        decreases if current.Some? then 1 + Depth(cc) else 0
      {
        ZipDown(store, root, cc, tt, Left);
        ZipDown(store, root, cc, tt, Right);
        ZipSet(store, root, cc, tt, Recalc(tt));
        var branch := store[current.value];
        var currentMax := Max(NodeGap(store[branch.left]), NodeGap(store[branch.right]));
        store := store[current.value := branch.(maxEmpty := currentMax)];
        current := branch.parent;
        if cc.Step? {
          ZipUp(store, root, cc, Recalc(tt));
          cc, tt := cc.up, Pull(cc, Recalc(tt));
        }
      }
    }

    // ----- insertion -----

    /** The uncle is red: colours move up two levels. */
    method FixInsertRecolor(k: Ptr, u: Ptr, ghost c: Ctx, ghost t: Tree) returns (k': Ptr)
      requires Zip(store, root, c, t) && t.Fork? && t.p == k
      requires c.Step? && c.up.Step? && c.up.sib.Fork? && c.up.sib.p == u
      modifies this`store
      ensures Zip(store, root, c.up.up, Recolored(c, t)) && k' == c.up.p
      ensures store.Keys == old(store.Keys)
    {
      ghost var p, g := Pull(c, t), Pull(c.up, Pull(c, t));
      Upward(store, root, c, t);
      ZipUp(store, root, c, t);
      Upward(store, root, c.up, p);
      ZipUp(store, root, c.up, p);
      var parent := store[k].parent.value;
      k' := store[parent].parent.value;
      SetChildColor(u, Black, c.up.up, g, c.up.side.Other());
      ghost var g1 := WithChild(c.up.side.Other(), g, c.up.sib.(color := Black));
      SetChildColor(parent, Black, c.up.up, g1, c.up.side);
      ghost var g2 := WithChild(c.up.side, g1, p.(color := Black));
      SetColor(k', Red, c.up.up, g2);
      assert g2.(color := Red) == Recolored(c, t);
    }

    /** The uncle is black and the parent a right child: one or two rotations. */
    method FixInsertTurnRight(k: Ptr, ghost c: Ctx, ghost t: Tree) returns (k': Ptr, ghost r: Tree)
      requires Zip(store, root, c, t) && t.Fork? && !t.temp && t.p == k
      requires c.Step? && c.up.Step? && c.up.side.Right?
      modifies this`store, this`root
      ensures r == TurnedRight(c, t)
      ensures Zip(store, root, c.up.up, r) && r.right.p == k'
      ensures store.Keys == old(store.Keys)
    {
      ghost var p := Pull(c, t);
      ghost var p1 := if c.side.Left? then RotR(p) else p;
      Upward(store, root, c, t);
      ZipUp(store, root, c, t);
      Upward(store, root, c.up, p);
      var parent := store[k].parent.value;
      k' := k;
      if store[parent].left == k {
        k' := parent;
        RightRotate(k', c.up, p);
      }
      Upward(store, root, c.up, p1);
      ZipDown(store, root, c.up, p1, Right);
      Upward(store, root, Push(Right, p1, c.up), p1.right);
      var top := store[k'].parent.value;
      var grand := store[top].parent.value;
      SetColor(top, Black, c.up, p1);
      ghost var p2 := p1.(color := Black);
      ZipUp(store, root, c.up, p2);
      ghost var g := Pull(c.up, p2);
      SetColor(grand, Red, c.up.up, g);
      LeftRotate(grand, c.up.up, g.(color := Red));
      r := RotL(g.(color := Red));
    }

    /** The uncle is black and the parent a left child: one or two rotations. */
    method FixInsertTurnLeft(k: Ptr, ghost c: Ctx, ghost t: Tree) returns (k': Ptr, ghost r: Tree)
      requires Zip(store, root, c, t) && t.Fork? && !t.temp && t.p == k
      requires c.Step? && c.up.Step? && c.up.side.Left?
      modifies this`store, this`root
      ensures r == TurnedLeft(c, t)
      ensures Zip(store, root, c.up.up, r) && r.left.p == k'
      ensures store.Keys == old(store.Keys)
    {
      ghost var p := Pull(c, t);
      ghost var p1 := if c.side.Right? then RotL(p) else p;
      Upward(store, root, c, t);
      ZipUp(store, root, c, t);
      Upward(store, root, c.up, p);
      var parent := store[k].parent.value;
      k' := k;
      if store[parent].right == k {
        k' := parent;
        LeftRotate(k', c.up, p);
      }
      Upward(store, root, c.up, p1);
      ZipDown(store, root, c.up, p1, Left);
      Upward(store, root, Push(Left, p1, c.up), p1.left);
      var top := store[k'].parent.value;
      var grand := store[top].parent.value;
      SetColor(top, Black, c.up, p1);
      ghost var p2 := p1.(color := Black);
      ZipUp(store, root, c.up, p2);
      ghost var g := Pull(c.up, p2);
      SetColor(grand, Red, c.up.up, g);
      RightRotate(grand, c.up.up, g.(color := Red));
      r := RotR(g.(color := Red));
    }

    method FixInsert(node: Ptr, ghost c0: Ctx, ghost t0: Tree) returns (ghost w: Tree)
      requires Zip(store, root, c0, t0) && t0.p == node && c0.Step? && RedFocus(c0, t0)
      requires ExactOff(Plug(c0, t0), node)
      modifies this`store, this`root
      ensures Zip(store, root, Top, w) && store.Keys == old(store.Keys)
      ensures SameFlat(Plug(c0, t0), w)
      ensures Balanced(w) && TreeColor(w).Black?
      ensures ExactOff(w, node)
    {
      var k := node;
      ghost var c, t := c0, t0;
      Upward(store, root, c, t);
      while store[store[k].parent.value].color == Red
        invariant Zip(store, root, c, t) && t.p == k && RedFocus(c, t) && c.Step?
        invariant k in store && store[k].Branch? && store[k].parent == Some(c.p)
        invariant c.p in store && store[c.p].Branch? && store[c.p].color == c.color
        invariant store.Keys == old(store.Keys)
        invariant SameFlat(Plug(c0, t0), Plug(c, t))
        invariant ExactOff(Plug(c, t), node)
        invariant c.color.Red? ==> node in Ptrs(t)
        decreases Depth(c)
      {
        k, c, t := FixInsertRound(k, c, t, node);
        if k == root {
          AtRoot(store, root, c, t);
          break;
        }
        Upward(store, root, c, t);
      }
      w := BlackenRoot(c, t, node);
    }

    method BlackenRoot(ghost c: Ctx, ghost t: Tree, ghost q: Ptr) returns (ghost w: Tree)
      requires Zip(store, root, c, t) && RedFocus(c, t) && ExactOff(Plug(c, t), q)
      requires c.Top? || c.color.Black?
      modifies this`store
      ensures Zip(store, root, Top, w) && store.Keys == old(store.Keys) && SameFlat(Plug(c, t), w)
      ensures Balanced(w) && TreeColor(w).Black? && ExactOff(w, q)
    {
      ZipTop(store, root, c, t);
      w := Plug(c, t);
      PlugBalanced(c, t);
      if c.Step? {
        ZipUp(store, root, c, t);
        PlugFork(c.up, Pull(c, t));
      }
      PaintFlat(w, Black);
      SetColor(root, Black, Top, w);
      w := w.(color := Black);
    }

    method FixInsertRound(k: Ptr, ghost c: Ctx, ghost t: Tree, ghost q: Ptr)
      returns (k': Ptr, ghost c': Ctx, ghost t': Tree)
      requires Zip(store, root, c, t) && t.p == k && RedFocus(c, t) && c.Step? && c.color.Red?
      requires q in Ptrs(t) && ExactOff(Plug(c, t), q)
      modifies this`store, this`root
      ensures Zip(store, root, c', t') && t'.p == k' && store.Keys == old(store.Keys)
      ensures RoundDone(c, t, c', t', q)
    {
      RedParent(c, t);
      Upward(store, root, c, t);
      ZipUp(store, root, c, t);
      Upward(store, root, c.up, Pull(c, t));
      var parent := store[k].parent.value;
      var grand := store[parent].parent.value;
      var u := if store[grand].right == parent then store[grand].left else store[grand].right;
      if NodeColor(store[u]) == Red {
        RecolorRound(c, t, q);
        k' := FixInsertRecolor(k, u, c, t);
        c', t' := c.up.up, Recolored(c, t);
      } else {
        TurnRound(c, t, q);
        ghost var r;
        if store[grand].right == parent {
          k', r := FixInsertTurnRight(k, c, t);
        } else {
          k', r := FixInsertTurnLeft(k, c, t);
        }
        ZipDown(store, root, c.up.up, r, c.up.side);
        c', t' := Push(c.up.side, r, c.up.up), Child(c.up.side, r);
      }
    }

    method LinkInBranch(newBranch: Ptr, newParentAndSide: Option<(Ptr, Side)>,
                        ghost c: Ctx, ghost t: Tree, ghost nb: Tree) returns (ghost w: Tree)
      requires Zip(store, root, c, t) && t.Tip? && newParentAndSide == ParentSide(c)
      requires nb.Fork? && nb.p == newBranch && nb.left.Tip? && nb.right.Tip?
      requires !nb.temp && nb.color.Black? && Rep(store, nb, ParentOf(c))
      requires Distinct(nb) && Ptrs(nb) !! PtrsC(c)
      requires Fits(c, 0, Black) && TopColor(c, Black).Black? && ExactC(c)
      modifies this`store, this`root
      ensures Zip(store, root, Top, w) && store.Keys == old(store.Keys)
      ensures SameFlat(Plug(c, nb), w)
      ensures Balanced(w) && TreeColor(w).Black? && Exact(w)
    {
      w := LinkAndFix(newBranch, newParentAndSide, c, t, nb);
      BalancedPlain(w);
      PlugPtrs(c, nb);
      PlugForks(c, nb);
      ghost var (c1, t1) := Locate(w, Top, newBranch);
      ZipInto(store, root, c1, t1);
      ForkIsBranch(store, w, None, newBranch);
      Upward(store, root, c1, t1);
      UpdateMaxEmptyAreaData(newBranch, c1, t1);
      LinkedExact(c1, t1, newBranch);
      UpdatedFlat(c1, t1);
      UpdatedBalanced(c1, t1);
      w := Updated(c1, t1);
    }

    /** Links the branch in place of the leaf and restores balance; gap data above it stay old. */
    method LinkAndFix(newBranch: Ptr, newParentAndSide: Option<(Ptr, Side)>,
                      ghost c: Ctx, ghost t: Tree, ghost nb: Tree) returns (ghost w: Tree)
      requires Zip(store, root, c, t) && t.Tip? && newParentAndSide == ParentSide(c)
      requires nb.Fork? && nb.p == newBranch && nb.left.Tip? && nb.right.Tip?
      requires !nb.temp && nb.color.Black? && Rep(store, nb, ParentOf(c))
      requires Distinct(nb) && Ptrs(nb) !! PtrsC(c)
      requires Fits(c, 0, Black) && TopColor(c, Black).Black? && ExactC(c)
      modifies this`store, this`root
      ensures Zip(store, root, Top, w) && store.Keys == old(store.Keys)
      ensures SameFlat(Plug(c, nb), w)
      ensures Balanced(w) && TreeColor(w).Black? && ExactOff(w, newBranch)
    {
      match newParentAndSide {
        case Some((newParent, side)) =>
          ghost var s := store;
          Upward(store, root, c, t);
          store := store[newParent := Relinked(store[newParent], side, newBranch)];
          RepFrame(s, store, nb, ParentOf(c));
          ZipReplace(s, store, root, root, c, t, nb);
          SetColor(newBranch, Red, c, nb);
          ghost var red := nb.(color := Red);
          LinkedRed(c, nb);
          Upward(store, root, c, red);
          if store[newParent].parent.Some? {
            w := FixInsert(newBranch, c, red);
          } else {
            w := Plug(c, red);
            ZipTop(store, root, c, red);
            PlugBalanced(c, red);
          }
        case None =>
          root := newBranch;
          w := nb;
      }
    }

    /** Links a freshly written branch in place of leaf `t`, which may have been cut down to `cut` before. */
    method LinkFresh(newBranch: Ptr, parentAndSide: Option<(Ptr, Side)>, ghost s0: Store,
                     ghost c: Ctx, ghost t: Tree, ghost cut: Tree, ghost nb: Tree) returns (ghost w: Tree)
      requires SoundAround(s0, root, c, t) && cut.Tip? && cut.p == t.p && parentAndSide == ParentSide(c)
      requires Agree(s0, store, PtrsC(c)) && t.p in store && store[t.p] == LeafNode(cut.leaf)
      requires FreshBranch(s0, store, c, t.p, nb) && nb.p == newBranch && !nb.temp && nb.color.Black?
      requires LowOf(c) < nb.pivot < HighOf(c) && nb.pivot % 4 == 0
      modifies this`store, this`root
      ensures Zip(store, root, Top, w) && Good(w) && store.Keys == old(store.Keys)
      ensures SameFlat(Plug(c, nb), w) && Ptrs(w) == PtrsC(c) + Ptrs(nb) && Forks(w) == ForksC(c) + {newBranch}
    {
      LinkReady(s0, store, root, c, t, cut, nb);
      w := LinkInBranch(newBranch, parentAndSide, c, cut, nb);
      PlugForks(c, nb);
      LinkedOrdered(c, nb, w);
    }

    /** The same when one of the two leaves under the branch is `t` itself. */
    method LinkOver(newBranch: Ptr, parentAndSide: Option<(Ptr, Side)>, ghost s0: Store,
                    ghost c: Ctx, ghost t: Tree, ghost cut: Tree, ghost nb: Tree) returns (ghost w: Tree)
      requires SoundAround(s0, root, c, t) && cut.Tip? && cut.p == t.p && parentAndSide == ParentSide(c)
      requires Agree(s0, store, PtrsC(c)) && t.p in store && store[t.p] == LeafNode(cut.leaf)
      requires FreshBranch(s0, store, c, t.p, nb) && nb.p == newBranch && !nb.temp && nb.color.Black?
      requires store.Keys == s0.Keys + {nb.p, nb.left.p, nb.right.p} && t.p in {nb.left.p, nb.right.p}
      requires LowOf(c) < nb.pivot < HighOf(c) && nb.pivot % 4 == 0
      modifies this`store, this`root
      ensures Sound(store, root, w) && SameFlat(Plug(c, nb), w) && Forks(w) == ForksC(c) + {newBranch}
      ensures store.Keys == old(store.Keys)
    {
      w := LinkFresh(newBranch, parentAndSide, s0, c, t, cut, nb);
      LinkedKeys(s0, store, c, t, nb, w);
    }

    /** The gap is cut down and goes under the new branch together with the new leaf. */
    method LinkCut(gap: Ptr, size: nat, newBranch: Ptr, parentAndSide: Option<(Ptr, Side)>, ghost s0: Store,
                   ghost c: Ctx, ghost t: Tree, ghost cut: Tree, ghost nb: Tree, ghost leaf: Tree) returns (ghost w: Tree)
      requires SoundAround(s0, root, c, t) && gap == t.p && cut == Tip(gap, Empty(size)) && parentAndSide == ParentSide(c)
      requires leaf.Tip? && nb.Fork? && nb.p == newBranch && !nb.temp && nb.color.Black?
      requires (nb.left == cut && nb.right == leaf) || (nb.left == leaf && nb.right == cut)
      requires nb.p !in s0 && leaf.p !in s0 && nb.p != leaf.p
      requires store == s0[leaf.p := LeafNode(leaf.leaf)][nb.p := NodeOf(nb, ParentOf(c))]
      requires LowOf(c) < nb.pivot < HighOf(c) && nb.pivot % 4 == 0
      modifies this`store, this`root
      ensures Sound(store, root, w) && SameFlat(Plug(c, nb), w) && Forks(w) == ForksC(c) + {newBranch}
      ensures store.Keys == s0.Keys + {leaf.p, newBranch}
    {
      store := store[gap := LeafNode(Empty(size))];
      OverReady(s0, store, root, c, t, cut, nb, leaf);
      w := LinkOver(newBranch, parentAndSide, s0, c, t, cut, nb);
    }

    /** The gap is exactly the new segment. */
    method InsertWhole(gap: Ptr, parentAndSide: Option<(Ptr, Side)>, flags: Flags, ghost c: Ctx, ghost t: Tree)
      returns (ghost w: Tree)
      requires SoundAround(store, root, c, t) && t.leaf.Empty?
      requires gap == t.p && parentAndSide == ParentSide(c)
      modifies this`store
      ensures Sound(store, root, w)
      ensures Inserted(c, t, w, LowOf(c), HighOf(c), flags, gap)
      ensures store.Keys == old(store.Keys) && Forks(w) == ForksC(c)
    {
      ghost var used := Tip(gap, Used(flags));
      ZipSetLeaf(store, root, c, t, Used(flags));
      store := store[gap := LeafNode(Used(flags))];
      w := Above(c, used);
      AboveKeeps(c, used);
      PlugForks(c, used);
      InsertedWhole(c, t, used, w);
      if parentAndSide.Some? {
        ZipUp(store, root, c, used);
        UpdateMaxEmptyAreaData(parentAndSide.value.0, c.up, Pull(c, used));
      }
    }

    /** The new segment ends where the gap ends. */
    method InsertAtEnd(gap: Ptr, parentAndSide: Option<(Ptr, Side)>, gapStart: nat, start: nat, flags: Flags,
                       ghost c: Ctx, ghost t: Tree)
      returns (r: Result<Ptr, MapError>, ghost w: Tree)
      requires SoundAround(store, root, c, t) && t.leaf.Empty?
      requires gap == t.p && parentAndSide == ParentSide(c)
      requires LowOf(c) == gapStart < start < HighOf(c) && start % 4 == 0
      modifies this`store, this`root, this`nodesLeft
      ensures r.Err? <==> old(nodesLeft) < 2
      ensures nodesLeft == old(nodesLeft) - if r.Ok? then 2 else 0
      ensures r.Err? ==> r.error.OutOfMemory? && store == old(store) && root == old(root)
      ensures r.Ok? ==> Sound(store, root, w)
      ensures r.Ok? ==> Inserted(c, t, w, start, HighOf(c), flags, r.value)
      ensures r.Ok? ==> SameTemp(sharedTemp, old(store).Keys, ForksC(c), store.Keys, Forks(w))
    {
      w := t;
      var nodes := NewUsedLeafAndBranch(flags, start, parentAndSide, gap, Left);
      if nodes.Err? {
        return Err(nodes.error), w;
      }
      var (newUsedLeaf, newBranch) := nodes.value;
      ghost var cut := Tip(gap, Empty(start - gapStart));
      ghost var nb := Fork(newBranch, start, false, Black, 0, cut, Tip(newUsedLeaf, Used(flags)));
      w := LinkCut(gap, start - gapStart, newBranch, parentAndSide, old(store), c, t, cut, nb, nb.right);
      InsertedAtEnd(c, t, nb, w, gapStart);
      r := Ok(newUsedLeaf);
    }

    /** The new segment starts where the gap starts. */
    method InsertAtStart(gap: Ptr, parentAndSide: Option<(Ptr, Side)>, pivot: nat, gapEnd: nat, flags: Flags,
                         ghost c: Ctx, ghost t: Tree)
      returns (r: Result<Ptr, MapError>, ghost w: Tree)
      requires SoundAround(store, root, c, t) && t.leaf.Empty?
      requires gap == t.p && parentAndSide == ParentSide(c)
      requires LowOf(c) < pivot < HighOf(c) == gapEnd + 1 && pivot % 4 == 0
      modifies this`store, this`root, this`nodesLeft
      ensures r.Err? <==> old(nodesLeft) < 2
      ensures nodesLeft == old(nodesLeft) - if r.Ok? then 2 else 0
      ensures r.Err? ==> r.error.OutOfMemory? && store == old(store) && root == old(root)
      ensures r.Ok? ==> Sound(store, root, w)
      ensures r.Ok? ==> Inserted(c, t, w, LowOf(c), pivot, flags, r.value)
      ensures r.Ok? ==> SameTemp(sharedTemp, old(store).Keys, ForksC(c), store.Keys, Forks(w))
    {
      w := t;
      var nodes := NewUsedLeafAndBranch(flags, pivot, parentAndSide, gap, Right);
      if nodes.Err? {
        return Err(nodes.error), w;
      }
      var (newUsedLeaf, newBranch) := nodes.value;
      ghost var cut := Tip(gap, Empty(gapEnd + 1 - pivot));
      ghost var nb := Fork(newBranch, pivot, false, Black, 0, Tip(newUsedLeaf, Used(flags)), cut);
      w := LinkCut(gap, gapEnd + 1 - pivot, newBranch, parentAndSide, old(store), c, t, cut, nb, nb.left);
      InsertedAtStart(c, t, nb, w, gapEnd + 1);
      r := Ok(newUsedLeaf);
    }

    /** The gap continues on both sides of the new segment: two branches, linked one after the other. */
    method InsertInside(gap: Ptr, parentAndSide: Option<(Ptr, Side)>, gapStart: nat, gapEnd: nat, start: nat, end: nat,
                        flags: Flags, ghost c: Ctx, ghost t: Tree)
      returns (r: Result<Ptr, MapError>, ghost w: Tree)
      requires SoundAround(store, root, c, t) && t.leaf.Empty?
      requires gap == t.p && parentAndSide == ParentSide(c)
      requires LowOf(c) == gapStart < start <= end < gapEnd && HighOf(c) == gapEnd + 1
      requires start % 4 == 0 && (end + 1) % 4 == 0
      modifies this`store, this`root, this`nodesLeft
      ensures r.Err? <==> old(nodesLeft) < 4
      ensures nodesLeft == old(nodesLeft) - if r.Ok? then 4 else 0
      ensures r.Err? ==> r.error.OutOfMemory? && store == old(store) && root == old(root)
      ensures r.Ok? ==> Sound(store, root, w)
      ensures r.Ok? ==> Inserted(c, t, w, start, end + 1, flags, r.value)
      ensures r.Ok? ==> SameTemp(sharedTemp, old(store).Keys, ForksC(c), store.Keys, Forks(w))
    {
      w := t;
      var nodes := NewInsideNodes(flags, end + 1, gapEnd - end, parentAndSide);
      if nodes.Err? {
        return Err(nodes.error), w;
      }
      var (newUsedLeaf, newEmptyLeaf, newEndBranch, newStartBranch) := nodes.value;
      ghost var used, rest := Tip(newUsedLeaf, Used(flags)), Tip(newEmptyLeaf, Empty(gapEnd - end));
      ghost var nb := Fork(newEndBranch, end + 1, false, Black, 0, used, rest);
      InsideReady(old(store), store, root, c, t, nb, newStartBranch, PLACEHOLDER);
      r, w := LinkInside(gap, parentAndSide, gapStart, start, end, newEndBranch, newStartBranch, old(store), c, t, used, rest);
    }

    method LinkInside(gap: Ptr, parentAndSide: Option<(Ptr, Side)>, gapStart: nat, start: nat, end: nat,
                      newEndBranch: Ptr, newStartBranch: Ptr,
                      ghost s0: Store, ghost c: Ctx, ghost t: Tree, ghost used: Tree, ghost rest: Tree)
      returns (r: Result<Ptr, MapError>, ghost w: Tree)
      requires SoundAround(s0, root, c, t) && parentAndSide == ParentSide(c) && gap == t.p
      requires Agree(s0, store, PtrsC(c) + {gap})
      requires used.Tip? && rest.Tip? && used.leaf.Used? && t.leaf.Empty?
      requires FreshBranch(s0, store, c, gap, Fork(newEndBranch, end + 1, false, Black, 0, used, rest))
      requires used.p != gap && rest.p != gap
      requires newStartBranch !in s0 && newStartBranch !in {newEndBranch, used.p, rest.p}
      requires store.Keys == s0.Keys + {newEndBranch, used.p, rest.p, newStartBranch}
      requires LowOf(c) == gapStart < start <= end && end + 1 < HighOf(c)
      requires start % 4 == 0 && (end + 1) % 4 == 0 && rest.leaf == Empty(HighOf(c) - (end + 1))
      modifies this`store, this`root
      ensures r == Ok(used.p) && Sound(store, root, w)
      ensures Inserted(c, t, w, start, end + 1, used.leaf.flags, used.p)
      ensures store.Keys == old(store.Keys) && Forks(w) == ForksC(c) + {newEndBranch, newStartBranch}
    {
      ghost var w1 := LinkFirst(newEndBranch, parentAndSide, end, newStartBranch, s0, c, t, used, rest);
      r, w := LinkSecond(newStartBranch, gap, gapStart, start, end, w1, c, t, used, rest);
    }

    method LinkSecond(newStartBranch: Ptr, gap: Ptr, gapStart: nat, start: nat, end: nat, ghost w1: Tree,
                      ghost c: Ctx, ghost t: Tree, ghost used: Tree, ghost rest: Tree)
      returns (r: Result<Ptr, MapError>, ghost w: Tree)
      requires Zip(store, root, Top, w1) && Good(w1) && t.Tip? && used.Tip? && used.leaf.Used? && rest.Tip?
      requires gap !in Ptrs(w1) && newStartBranch !in Ptrs(w1) && gap != newStartBranch
      requires store.Keys == Ptrs(w1) + {gap, newStartBranch}
      requires Areas(w1) == AreasBefore(c)
                           + [Area(LowOf(c), end + 1, used.leaf), Area(end + 1, HighOf(c), rest.leaf)]
                           + AreasAfter(c)
      requires LowOf(c) == gapStart < start <= end && end + 1 < HighOf(c) && end < END && start % 4 == 0
      requires HeldBy(w1, |AreasBefore(c)|, used.p) && rest.leaf == Empty(HighOf(c) - (end + 1))
      modifies this`store, this`root
      ensures r == Ok(used.p) && Sound(store, root, w)
      ensures Inserted(c, t, w, start, end + 1, used.leaf.flags, used.p)
      ensures store.Keys == old(store.Keys) && Forks(w) == Forks(w1) + {newStartBranch}
    {
      ghost var u, y := Area(gapStart, end + 1, used.leaf), Area(end + 1, HighOf(c), rest.leaf);
      r, w := LinkStartBranch(newStartBranch, gap, gapStart, start, end, w1, AreasBefore(c), u, y, AreasAfter(c), used.p);
      InsertedInside(c, t, w, gapStart, start, end + 1, u, y, used.p);
    }

    /** After the first link the gap node and the start branch are the only nodes outside the tree. */
    method LinkFirst(newEndBranch: Ptr, parentAndSide: Option<(Ptr, Side)>, end: nat, ghost newStartBranch: Ptr, ghost s0: Store,
                     ghost c: Ctx, ghost t: Tree, ghost used: Tree, ghost rest: Tree) returns (ghost w1: Tree)
      requires SoundAround(s0, root, c, t) && parentAndSide == ParentSide(c)
      requires Agree(s0, store, PtrsC(c) + {t.p}) && used.Tip? && rest.Tip? && used.p != t.p && rest.p != t.p
      requires FreshBranch(s0, store, c, t.p, Fork(newEndBranch, end + 1, false, Black, 0, used, rest))
      requires newStartBranch !in s0 && newStartBranch !in {newEndBranch, used.p, rest.p}
      requires store.Keys == s0.Keys + {newEndBranch, used.p, rest.p, newStartBranch}
      requires LowOf(c) < end + 1 < HighOf(c) && (end + 1) % 4 == 0
      modifies this`store, this`root
      ensures Zip(store, root, Top, w1) && Good(w1) && store.Keys == old(store.Keys)
      ensures t.p !in Ptrs(w1) && newStartBranch !in Ptrs(w1) && t.p != newStartBranch
      ensures store.Keys == Ptrs(w1) + {t.p, newStartBranch}
      ensures Areas(w1) == AreasBefore(c)
                           + [Area(LowOf(c), end + 1, used.leaf), Area(end + 1, HighOf(c), rest.leaf)]
                           + AreasAfter(c)
      ensures HeldBy(w1, |AreasBefore(c)|, used.p) && Forks(w1) == ForksC(c) + {newEndBranch}
    {
      w1 := LinkEndBranch(newEndBranch, parentAndSide, end, s0, c, t, used, rest);
      KeysBetweenLinks(store.Keys, PtrsC(c), Ptrs(w1), t.p, newStartBranch, {newEndBranch, used.p, rest.p});
    }

    /** The first link: the end branch goes where the gap node was. */
    method LinkEndBranch(newEndBranch: Ptr, parentAndSide: Option<(Ptr, Side)>, end: nat, ghost s0: Store,
                         ghost c: Ctx, ghost t: Tree, ghost used: Tree, ghost rest: Tree) returns (ghost w1: Tree)
      requires SoundAround(s0, root, c, t) && parentAndSide == ParentSide(c)
      requires Agree(s0, store, PtrsC(c) + {t.p})
      requires used.Tip? && rest.Tip?
      requires FreshBranch(s0, store, c, t.p, Fork(newEndBranch, end + 1, false, Black, 0, used, rest))
      requires LowOf(c) < end + 1 < HighOf(c) && (end + 1) % 4 == 0
      modifies this`store, this`root
      ensures Zip(store, root, Top, w1) && Good(w1) && store.Keys == old(store.Keys)
      ensures Ptrs(w1) == PtrsC(c) + {newEndBranch, used.p, rest.p}
      ensures Areas(w1) == AreasBefore(c)
                           + [Area(LowOf(c), end + 1, used.leaf), Area(end + 1, HighOf(c), rest.leaf)]
                           + AreasAfter(c)
      ensures HeldBy(w1, |AreasBefore(c)|, used.p) && Forks(w1) == ForksC(c) + {newEndBranch}
    {
      ghost var nb := Fork(newEndBranch, end + 1, false, Black, 0, used, rest);
      Upward(s0, root, c, t);
      w1 := LinkFresh(newEndBranch, parentAndSide, s0, c, t, t, nb);
      assert Ptrs(nb) == {newEndBranch, used.p, rest.p};
      LinkedAreas(c, nb, w1);
    }

    /** The second link: the start branch goes over the used leaf, with the old gap node beside it. */
    method LinkStartBranch(newStartBranch: Ptr, gap: Ptr, gapStart: nat, start: nat, end: nat, ghost w1: Tree,
                           ghost before: seq<Area>, ghost u: Area, ghost y: Area, ghost after: seq<Area>, ghost q: Ptr)
      returns (r: Result<Ptr, MapError>, ghost w: Tree)
      requires Zip(store, root, Top, w1) && Good(w1)
      requires gap !in Ptrs(w1) && newStartBranch !in Ptrs(w1) && gap != newStartBranch
      requires store.Keys == Ptrs(w1) + {gap, newStartBranch}
      requires Areas(w1) == before + [u, y] + after && HeldBy(w1, |before|, q)
      requires u.lo == gapStart < start <= end < END && u.hi == end + 1 && start % 4 == 0
      modifies this`store, this`root
      ensures r == Ok(q) && Sound(store, root, w)
      ensures Areas(w) == before + [Area(gapStart, start, Empty(start - gapStart)), Area(start, u.hi, u.leaf)]
                          + ([y] + after)
      ensures HeldBy(w, |before| + 1, q) && store.Keys == old(store.Keys) && Forks(w) == Forks(w1) + {newStartBranch}
    {
      BalancedPlain(w1);
      var usedNode, parentAndSide, _, gapEnd, c, t := GetLeafContaining(start, w1);
      BetweenLinks(c, t, before, u, y, after, start);
      assert gapEnd == end;
      ghost var nb := Fork(newStartBranch, start, false, Black, 0, Tip(gap, Empty(start - gapStart)), t);
      w := LinkSpares(newStartBranch, gap, start - gapStart, usedNode, start, parentAndSide, c, t, nb);
      PlugForks(c, t);
      LinkedAreas(c, nb, w);
      r := Ok(usedNode);
    }

    method LinkSpares(newStartBranch: Ptr, gap: Ptr, size: nat, usedNode: Ptr, start: nat, parentAndSide: Option<(Ptr, Side)>,
                      ghost c: Ctx, ghost t: Tree, ghost nb: Tree) returns (ghost w: Tree)
      requires Zip(store, root, c, t) && t.Tip? && t.p == usedNode && Good(Plug(c, t)) && parentAndSide == ParentSide(c)
      requires gap !in Ptrs(Plug(c, t)) && newStartBranch !in Ptrs(Plug(c, t)) && gap != newStartBranch
      requires store.Keys == Ptrs(Plug(c, t)) + {gap, newStartBranch}
      requires nb == Fork(newStartBranch, start, false, Black, 0, Tip(gap, Empty(size)), t)
      requires LowOf(c) < start < HighOf(c) && start % 4 == 0
      modifies this`store, this`root
      ensures Sound(store, root, w) && SameFlat(Plug(c, nb), w) && Forks(w) == ForksC(c) + {newStartBranch}
      ensures store.Keys == old(store.Keys)
    {
      ghost var s0: Store := store - {gap, newStartBranch};
      WithoutSpares(store, s0, root, c, t, {gap, newStartBranch});
      Upward(s0, root, c, t);
      store := store[newStartBranch := NewBranch(start, false, ParentOfSide(parentAndSide), gap, usedNode)];
      store := store[gap := LeafNode(Empty(size))];
      assert store == s0[gap := LeafNode(Empty(size))][newStartBranch := NodeOf(nb, ParentOf(c))][t.p := LeafNode(t.leaf)];
      OverReady(s0, store, root, c, t, t, nb, nb.left);
      w := LinkOver(newStartBranch, parentAndSide, s0, c, t, t, nb);
    }

    /** Turns addresses start..start+len-1 of a gap into a segment and returns its leaf. */
    method Insert(start: nat, len: nat, flags: Flags) returns (r: Result<Ptr, MapError>)
      requires Valid() && FreeRange(Areas(shape), start, start + len)
      requires len > 0 && start % 4 == 0 && len % 4 == 0
      modifies this
      ensures Valid()
      ensures r.Err? <==> old(nodesLeft) < NodesNeeded(old(Segments(Areas(shape))), start, len)
      ensures nodesLeft == old(nodesLeft) - if r.Ok? then NodesNeeded(old(Segments(Areas(shape))), start, len) else 0
      ensures r.Err? ==> r.error.OutOfMemory? && store == old(store) && root == old(root) && shape == old(shape)
      ensures r.Ok? ==> Sized(Areas(shape))
      ensures r.Ok? ==> Segments(Areas(shape)) == old(Segments(Areas(shape))) + {Segment(start, len, flags)}
      ensures r.Ok? ==> LeafCovers(shape, r.value, start, start + len, flags)
      ensures Linked(sharedTemp, shape) <==> old(Linked(sharedTemp, shape))
    {
      var end := start + len - 1;
      assert end + 1 == start + len && (end + 1) % 4 == 0;
      var gap, parentAndSide, gapStart, gapEnd, c, t := FindGap(start, end, shape);
      ghost var w;
      r, w := InsertIntoGap(gap, parentAndSide, gapStart, gapEnd, start, end, flags, c, t);
      if r.Ok? {
        InsertedSegment(c, t, w, start, end, len, flags, r.value);
        PlugForks(c, t);
        shape := w;
      }
    }

    /** The gap that holds start..end; the assertions at the head of an insertion hold. */
    method FindGap(start: nat, end: nat, ghost w: Tree)
      returns (gap: Ptr, parentAndSide: Option<(Ptr, Side)>, gapStart: nat, gapEnd: nat, ghost c: Ctx, ghost t: Tree)
      requires Sound(store, root, w) && FreeRange(Areas(w), start, end + 1) && start <= end && NoAdjacentGaps(Areas(w))
      ensures SoundAround(store, root, c, t) && Plug(c, t) == w && t.leaf.Empty?
      ensures gap == t.p && parentAndSide == ParentSide(c)
      ensures LowOf(c) == gapStart <= start && end <= gapEnd && gapEnd + 1 == HighOf(c)
      ensures NodesNeeded(Segments(Areas(w)), start, end + 1 - start) == SplitNodes(gapStart < start, end < gapEnd)
    {
      BalancedPlain(w);
      FreeInside(w, start, end + 1);
      gap, parentAndSide, gapStart, gapEnd, c, t := GetLeafContaining(start, w);
      FoundFree(c, t, start, end + 1);
      GapSides(c, t, start, end + 1 - start);
      SoundFocus(store, root, c, t);
      Upward(store, root, c, t);
      assert store[gap].LeafNode? && store[gap].leaf.Empty?;
      assert gapStart <= start;
      assert end <= gapEnd;
    }

    /** The four ways in which a segment can lie in a gap. */
    method InsertIntoGap(gap: Ptr, parentAndSide: Option<(Ptr, Side)>, gapStart: nat, gapEnd: nat, start: nat, end: nat,
                         flags: Flags, ghost c: Ctx, ghost t: Tree)
      returns (r: Result<Ptr, MapError>, ghost w: Tree)
      requires SoundAround(store, root, c, t) && t.leaf.Empty? && gap == t.p && parentAndSide == ParentSide(c)
      requires LowOf(c) == gapStart <= start <= end <= gapEnd && gapEnd + 1 == HighOf(c)
      requires start % 4 == 0 && (end + 1) % 4 == 0
      modifies this`store, this`root, this`nodesLeft
      ensures r.Err? <==> old(nodesLeft) < SplitNodes(gapStart < start, end < gapEnd)
      ensures nodesLeft == old(nodesLeft) - if r.Ok? then SplitNodes(gapStart < start, end < gapEnd) else 0
      ensures r.Err? ==> r.error.OutOfMemory? && store == old(store) && root == old(root)
      ensures r.Ok? ==> Sound(store, root, w) && Inserted(c, t, w, start, end + 1, flags, r.value)
      ensures r.Ok? ==> SameTemp(sharedTemp, old(store).Keys, ForksC(c), store.Keys, Forks(w))
    {
      if gapStart == start && end == gapEnd {
        w := InsertWhole(gap, parentAndSide, flags, c, t);
        r := Ok(gap);
      } else if gapStart < start && end == gapEnd {
        r, w := InsertAtEnd(gap, parentAndSide, gapStart, start, flags, c, t);
      } else if gapStart == start && end < gapEnd {
        r, w := InsertAtStart(gap, parentAndSide, end + 1, gapEnd, flags, c, t);
      } else {
        r, w := InsertInside(gap, parentAndSide, gapStart, gapEnd, start, end, flags, c, t);
      }
    }

    // ----- deletion fix-up -----

    method HandleRedSibling(node: Ptr, sibling: Ptr, ghost c: Ctx, ghost t: Tree)
      requires Zip(store, root, c, t) && t.Fork? && t.p == node
      requires c.Step? && c.sib.Fork? && !c.sib.temp && c.sib.p == sibling
      modifies this`store, this`root
      ensures Zip(store, root, c.up, RedSiblingTurned(c, t)) && store.Keys == old(store.Keys)
    {
      ghost var g := Pull(c, t);
      Upward(store, root, c, t);
      ZipUp(store, root, c, t);
      var parent := store[node].parent.value;
      var isLeft := store[parent].left == node;
      SetChildColor(sibling, Black, c.up, g, c.side.Other());
      ghost var g1 := WithChild(c.side.Other(), g, c.sib.(color := Black));
      SetColor(parent, Red, c.up, g1);
      if isLeft {
        LeftRotate(parent, c.up, g1.(color := Red));
      } else {
        RightRotate(parent, c.up, g1.(color := Red));
      }
    }

    /** The inner rotation of the black-sibling case, seen from the sibling. */
    method TurnSibling(sibling: Ptr, isLeft: bool, ghost c: Ctx, ghost t: Tree)
      requires Zip(store, root, c, t) && t.Fork? && !t.temp && t.p == sibling && c.Step?
      requires isLeft == c.side.Right?
      requires var side := c.side.Other();
        TreeColor(Child(side.Other(), t)).Black? ==> Child(side, t).Fork? && !Child(side, t).temp
      modifies this`store, this`root
      ensures Zip(store, root, c, FarRed(c.side.Other(), t)) && store.Keys == old(store.Keys)
    {
      Upward(store, root, c, t);
      ZipDown(store, root, c, t, Left);
      Upward(store, root, Push(Left, t, c), t.left);
      ZipDown(store, root, c, t, Right);
      Upward(store, root, Push(Right, t, c), t.right);
      if isLeft && NodeColor(store[store[sibling].right]) == Black {
        SetChildColor(store[sibling].left, Black, c, t, Left);
        ghost var t1 := t.(left := t.left.(color := Black));
        SetColor(sibling, Red, c, t1);
        RightRotate(sibling, c, t1.(color := Red));
      } else if !isLeft && NodeColor(store[store[sibling].left]) == Black {
        SetChildColor(store[sibling].right, Black, c, t, Right);
        ghost var t1 := t.(right := t.right.(color := Black));
        SetColor(sibling, Red, c, t1);
        LeftRotate(sibling, c, t1.(color := Red));
      }
    }

    method HandleBlackSiblingAtLeastOneRedChild(node: Ptr, sibling: Ptr, ghost c: Ctx, ghost t: Tree)
      requires Zip(store, root, c, t) && t.Fork? && t.p == node
      requires HasFarRed(c) && !c.sib.temp && c.sib.p == sibling
      requires Plain(c.sib)
      modifies this`store, this`root
      ensures Zip(store, root, c.up, BlackSiblingTurned(c, t)) && store.Keys == old(store.Keys)
    {
      ghost var g := Pull(c, t);
      ghost var side := c.side.Other();
      Upward(store, root, c, t);
      ZipUp(store, root, c, t);
      ZipDown(store, root, c.up, g, side);
      ghost var cs := Push(side, g, c.up);
      var isLeft := store[store[node].parent.value].left == node;
      TurnSibling(sibling, isLeft, cs, c.sib);
      ghost var s := FarRed(c.side, c.sib);
      FarRedPlain(c.side, c.sib);
      ZipUp(store, root, cs, s);
      PaintAndTurn(node, isLeft, c.(sib := s), t);
    }

    /** Recolours parent, sibling and far child, and rotates at the parent. */
    method PaintAndTurn(node: Ptr, isLeft: bool, ghost c: Ctx, ghost t: Tree)
      requires c.Step? && Zip(store, root, c.up, Pull(c, t)) && t.Fork? && t.p == node && isLeft == c.side.Left?
      requires c.sib.Fork? && !c.sib.temp && Child(c.side.Other(), c.sib).Fork?
      modifies this`store, this`root
      ensures store.Keys == old(store.Keys)
      ensures var s := WithChild(c.side.Other(), c.sib.(color := c.color), Child(c.side.Other(), c.sib).(color := Black));
        var g := Pull(c.(color := Black, sib := s), t);
        Zip(store, root, c.up, if c.side.Left? then RotL(g) else RotR(g))
    {
      ghost var side := c.side.Other();
      ghost var g := Pull(c, t);
      ZipDown(store, root, c.up, g, c.side);
      Upward(store, root, c, t);
      var parent := store[node].parent.value;
      var sibling := if isLeft then store[parent].right else store[parent].left;
      SetChildColor(sibling, store[parent].color, c.up, g, side);
      ghost var g1 := WithChild(side, g, c.sib.(color := c.color));
      SetColor(parent, Black, c.up, g1);
      ghost var g2 := g1.(color := Black);
      ghost var s := c.sib.(color := c.color);
      ZipDown(store, root, c.up, g2, side);
      ghost var cs := Push(side, g2, c.up);
      Upward(store, root, cs, s);
      var far := if isLeft then store[sibling].right else store[sibling].left;
      SetChildColor(far, Black, cs, s, side);
      ghost var s' := WithChild(side, s, Child(side, s).(color := Black));
      ZipUp(store, root, cs, s');
      ghost var g3 := Pull(cs, s');
      if isLeft {
        LeftRotate(parent, c.up, g3);
      } else {
        RightRotate(parent, c.up, g3);
      }
    }

    /** Restores the missing black level at `node`; returns its context afterwards. */
    method FixDelete(node0: Ptr, ghost c0: Ctx, ghost x: Tree, ghost h: nat, ghost q: Ptr) returns (ghost e: Ctx)
      requires Zip(store, root, c0, x) && x.Fork? && x.p == node0 && Short(c0, h, q)
      modifies this`store, this`root
      ensures store.Keys == old(store.Keys) && e == Fixed(c0, x)
      ensures Zip(store, root, e, if e.Top? then x.(color := Black) else x)
      ensures Restored(c0, e, h, x.color, q)
    {
      var node := node0;
      ghost var c, d, t, n := c0, Top, x, h;
      e := Fixed(c0, x);
      FixedRestores(c0, x, h, x.color, q);
      while node != root
        invariant store.Keys == old(store.Keys)
        invariant Zip(store, root, c, t) && t == Plug(d, x) && t.Fork? && t.p == node
        invariant Short(c, n, q) && (d.Step? ==> TopColor(d, x.color).Black?)
        invariant Append(d, Fixed(c, t)) == e
        decreases Depth(c)
      {
        Upward(store, root, c, t);
        var node', done, c' := FixDeleteRound(node, c, t, n, q);
        if done {
          ZipAppend(store, root, d, c', x);
          AppendParent(d, c');
          return;
        }
        FixedOn(c, d, t, x);
        node, c, d, t, n := node', c'.up, Append(d, c'.(up := Top)), Pull(c', t), n + 1;
      }
      AtRoot(store, root, c, t);
      AppendParent(Top, d);
      SetColor(node, Black, c, t);
      RootBlackened(d, x);
      if d.Step? {
        ZipAppend(store, root, d, c, x);
      }
    }

    /** One round: either the level is restored, or the loop goes on at the parent. */
    method FixDeleteRound(node: Ptr, ghost c: Ctx, ghost t: Tree, ghost h: nat, ghost q: Ptr)
      returns (node': Ptr, done: bool, ghost c': Ctx)
      requires Zip(store, root, c, t) && t.Fork? && t.p == node && c.Step? && Short(c, h, q)
      modifies this`store, this`root
      ensures store.Keys == old(store.Keys)
      ensures c.sib.Fork? && c' == Round(PastRed(c, t), t) && c'.Step? && done == !GoesOn(PastRed(c, t))
      ensures done ==> Zip(store, root, c', t)
      ensures !done ==> node' == c'.p && Zip(store, root, c'.up, Pull(c', t))
      ensures !done ==> Short(c'.up, h + 1, q) && Depth(c'.up) < Depth(c)
    {
      SiblingIsBranch(c, h);
      Upward(store, root, c, t);
      node' := store[node].parent.value;
      var sibling := if store[node'].left == node then store[node'].right else store[node'].left;
      if store[sibling].color == Red {
        RedSiblingKeeps(c, t, h, q);
        ghost var r := RedSiblingTurned(c, t);
        HandleRedSibling(node, sibling, c, t);
        ZipDown(store, root, c.up, r, c.side);
        ZipDown(store, root, Push(c.side, r, c.up), Child(c.side, r), c.side);
        node', done, c' := FixBlackSibling(node, Twice(c.side, r, c.up), t, h, q);
      } else {
        node', done, c' := FixBlackSibling(node, c, t, h, q);
      }
    }

    method FixBlackSibling(node: Ptr, ghost c: Ctx, ghost t: Tree, ghost h: nat, ghost q: Ptr)
      returns (node': Ptr, done: bool, ghost c': Ctx)
      requires Zip(store, root, c, t) && t.Fork? && t.p == node && Short(c, h, q)
      requires c.Step? && c.sib.Fork? && c.sib.color.Black?
      modifies this`store, this`root
      ensures store.Keys == old(store.Keys)
      ensures c' == Round(c, t) && c'.Step? && done == !GoesOn(c)
      ensures done ==> Zip(store, root, c', t)
      ensures !done ==> node' == c'.p && Zip(store, root, c'.up, Pull(c', t)) && c'.up == c.up && Short(c.up, h + 1, q)
    {
      SiblingIsBranch(c, h);
      Upward(store, root, c, t);
      NephewView(store, root, c, t);
      node' := store[node].parent.value;
      var sibling := if store[node'].left == node then store[node'].right else store[node'].left;
      if NodeColor(store[store[sibling].left]) == Black && NodeColor(store[store[sibling].right]) == Black {
        RedderSibling(c, h, Red, q);
        done, c' := ReddenSibling(node', sibling, c, t);
      } else {
        BalancedPlain(c.sib);
        BlackSiblingKeeps(c, t, h, Red, q);
        ghost var r := BlackSiblingTurned(c, t);
        HandleBlackSiblingAtLeastOneRedChild(node, sibling, c, t);
        ZipDown(store, root, c.up, r, c.side);
        ZipDown(store, root, Push(c.side, r, c.up), Child(c.side, r), c.side);
        c', done := Twice(c.side, r, c.up), true;
      }
    }

    /** Both children of the sibling are black: it turns red, and a red parent turns black. */
    method ReddenSibling(parent: Ptr, sibling: Ptr, ghost c: Ctx, ghost t: Tree) returns (done: bool, ghost c': Ctx)
      requires Zip(store, root, c, t) && c.Step? && c.p == parent && c.sib.Fork? && c.sib.p == sibling
      modifies this`store
      ensures store.Keys == old(store.Keys)
      ensures done == c.color.Red? && c' == c.(sib := c.sib.(color := Red), color := Black)
      ensures done ==> Zip(store, root, c', t)
      ensures !done ==> Zip(store, root, c.up, Pull(c', t))
    {
      ghost var g, side := Pull(c, t), c.side.Other();
      ZipUp(store, root, c, t);
      c' := c.(sib := c.sib.(color := Red), color := Black);
      SetChildColor(sibling, Red, c.up, g, side);
      ghost var g1 := WithChild(side, g, c.sib.(color := Red));
      Upward(store, root, c.up, g1);
      done := store[parent].color == Red;
      if done {
        SetColor(parent, Black, c.up, g1);
        ZipDown(store, root, c.up, g1.(color := Black), c.side);
        assert Push(c.side, g1.(color := Black), c.up) == c';
      } else {
        assert g1 == Pull(c', t);
      }
    }

    // ----- removing a branch -----

    method ReplaceNode(oldBranch: Ptr, newNode: Ptr, ghost c: Ctx, ghost t: Tree, ghost x: Tree, ghost up: Option<Ptr>)
      requires Zip(store, root, c, t) && t.Fork? && t.p == oldBranch
      requires Rep(store, x, up) && x.p == newNode && Distinct(x) && Ptrs(x) !! PtrsC(c) && oldBranch !in Ptrs(x)
      modifies this`store, this`root
      ensures Zip(store, root, c, x)
      ensures store.Keys == old(store.Keys) && store[oldBranch] == old(store[oldBranch])
    {
      Upward(store, root, c, t);
      var s := store;
      if IsLeftSide(s, oldBranch).None? {
        root := newNode;
      }
      s := RelinkParent(s, oldBranch, newNode);
      s := s[newNode := Reparented(s[newNode], s[oldBranch].parent)];
      store := s;
      RepReparent(old(store), s, x, up, ParentOf(c));
      ZipReplace(old(store), s, old(root), root, c, t, x);
    }

    /**
     * Takes out a branch one of whose children is a leaf. The record of the branch stays in the arena.
     * The deletion goes no further once the shared node was overwritten, or where it would be freed.
     */
    method DeleteNodeWithZeroOrOneChild(node: Ptr, ghost c: Ctx, ghost t: Tree)
      returns (fate: Fate, newChild: Ptr, parent: Option<Ptr>, ghost x: Tree)
      requires Zip(store, root, c, t) && t.Fork? && !t.temp && t.p == node && HasLeafChild(t)
      requires store.Keys == PtrsC(c) + Ptrs(t) && (sharedTemp.Some? ==> sharedTemp.value !in ForksC(c) + Forks(t))
      requires t.right.Tip? ==> t.right.leaf.Empty? || (t.left.Tip? && t.left.leaf.Empty?)
      requires t.right.Fork? ==> t.left.leaf.Empty?
      modifies this`store, this`root, this`nodesLeft
      ensures fate.Fine? ==> NodesKept(old(Nodes()))
      ensures fate == TakeFate(sharedTemp, PtrsC(c) + Ptrs(t), t)
      ensures fate.Overwrites? ==> !Readable(store, root)
      ensures fate.Fine? ==> newChild == x.p && parent == ParentOf(c)
      ensures fate.Fine? ==> Zip(store, root, c, x) && store.Keys == PtrsC(c) + Ptrs(x) + {node}
      ensures fate.Fine? ==> node !in PtrsC(c) + Ptrs(x) && store[node].Branch? && store[node].color == t.color
      ensures fate.Fine? ==> x == Moved(t, x.p) && (Takes(t) && sharedTemp.Some? ==> x.p == sharedTemp.value)
    {
      Upward(store, root, c, t);
      ZipDown(store, root, c, t, Left);
      Upward(store, root, Push(Left, t, c), t.left);
      ZipDown(store, root, c, t, Right);
      Upward(store, root, Push(Right, t, c), t.right);
      parent := store[node].parent;
      var left, right := store[node].left, store[node].right;
      if store[left].Branch? {
        assert !store[right].leaf.Used?;
        newChild, x := left, t.left;
        fate := LiftChild(node, left, right, Left, c, t);
      } else if store[right].Branch? {
        assert !store[left].leaf.Used?;
        newChild, x := right, t.right;
        fate := LiftChild(node, right, left, Right, c, t);
      } else if store[node].color == Black {
        fate, newChild, x := DeleteBlackWithTwoLeaves(node, c, t);
      } else if store[left].leaf.Used? {
        assert !store[right].leaf.Used?;
        newChild, x := left, t.left;
        fate := LiftChild(node, left, right, Left, c, t);
      } else {
        newChild, x := right, t.right;
        fate := LiftChild(node, right, left, Right, c, t);
      }
    }

    /** One child of the branch takes its place, and the other, a leaf, is freed. */
    method LiftChild(node: Ptr, child: Ptr, leaf: Ptr, ghost side: Side, ghost c: Ctx, ghost t: Tree) returns (fate: Fate)
      requires Zip(store, root, c, t) && t.Fork? && t.p == node && store.Keys == PtrsC(c) + Ptrs(t)
      requires child == Child(side, t).p && Child(side.Other(), t).Tip? && leaf == Child(side.Other(), t).p
      modifies this`store, this`root, this`nodesLeft
      ensures fate == if sharedTemp == Some(leaf) then Frees else Fine
      ensures fate.Fine? ==> NodesKept(old(Nodes()))
      ensures fate.Fine? ==> Zip(store, root, c, Child(side, t)) && store.Keys == PtrsC(c) + Ptrs(Child(side, t)) + {node}
      ensures fate.Fine? ==> node !in PtrsC(c) + Ptrs(Child(side, t)) && store[node].Branch? && store[node].color == t.color
    {
      Upward(store, root, c, t);
      ReplaceNode(node, child, c, t, Child(side, t), Some(node));
      assert Nodes() == old(Nodes());
      fate := DropLeaf(leaf, c, Child(side, t), node);
    }

    /** The two leaves hang from a temporary branch until the black level is restored. */
    method DeleteBlackWithTwoLeaves(node: Ptr, ghost c: Ctx, ghost t: Tree)
      returns (fate: Fate, newChild: Ptr, ghost x: Tree)
      requires Zip(store, root, c, t) && t.Fork? && !t.temp && t.p == node && t.left.Tip? && t.right.Tip?
      requires store.Keys == PtrsC(c) + Ptrs(t) && (sharedTemp.Some? ==> sharedTemp.value !in ForksC(c) + Forks(t))
      modifies this`store, this`root
      ensures fate.Fine? ==> NodesKept(old(Nodes()))
      ensures fate == if sharedTemp.Some? && sharedTemp.value in PtrsC(c) + Ptrs(t) then Overwrites else Fine
      ensures fate.Overwrites? ==> !Readable(store, root)
      ensures fate.Fine? ==> newChild == x.p && Zip(store, root, c, x) && store.Keys == PtrsC(c) + Ptrs(x) + {node}
      ensures fate.Fine? ==> node !in PtrsC(c) + Ptrs(x) && store[node].Branch? && store[node].color == t.color
      ensures fate.Fine? ==> x == Fork(newChild, 0, true, Black, 0, t.left, t.right)
      ensures fate.Fine? && sharedTemp.Some? ==> newChild == sharedTemp.value
    {
      Upward(store, root, c, t);
      ghost var s0 := store;
      newChild := GetTempNode();
      var linked := newChild in store;
      var n := NewBranch(0, true, None, store[node].left, store[node].right);
      store := store[newChild := n];
      x := Fork(newChild, 0, true, Black, 0, t.left, t.right);
      if linked {
        OverwrittenUnreadable(s0, root, c, t, newChild, n);
        return Overwrites, newChild, x;
      }
      HangBoth(s0, node, newChild, c, t, x);
      assert store.Keys == s0.Keys + {newChild};
      OneMore(s0.Keys, sharedTemp, newChild);
      fate := Fine;
    }

    method HangBoth(ghost s0: Store, node: Ptr, newChild: Ptr, ghost c: Ctx, ghost t: Tree, ghost x: Tree)
      requires Zip(s0, root, c, t) && t.Fork? && !t.temp && t.p == node && t.left.Tip? && t.right.Tip?
      requires s0.Keys == PtrsC(c) + Ptrs(t) && newChild !in s0
      requires store == s0[newChild := NewBranch(0, true, None, t.left.p, t.right.p)]
      requires x == Fork(newChild, 0, true, Black, 0, t.left, t.right)
      modifies this`store, this`root
      ensures Zip(store, root, c, x) && store.Keys == PtrsC(c) + Ptrs(x) + {node}
      ensures node !in PtrsC(c) + Ptrs(x) && store[node].Branch? && store[node].color == t.color
    {
      Upward(s0, root, c, t);
      assert Ptrs(x) == {newChild, t.left.p, t.right.p} && Ptrs(t) == {node, t.left.p, t.right.p};
      ZipFrame(s0, store, root, c, t);
      assert Rep(store, t.left, Some(node)) && Rep(store, t.right, Some(node));
      assert Rep(store, t.left, Some(newChild)) && Rep(store, t.right, Some(newChild));
      ReplaceNode(node, newChild, c, t, x, None);
    }

    /** Frees the leaf that no longer separates anything. */
    method DropLeaf(leaf: Ptr, ghost c: Ctx, ghost x: Tree, ghost node: Ptr) returns (fate: Fate)
      requires Zip(store, root, c, x) && leaf !in PtrsC(c) + Ptrs(x) && leaf != node
      requires store.Keys == PtrsC(c) + Ptrs(x) + {node, leaf} && node in store
      modifies this`store, this`nodesLeft
      ensures fate.Fine? ==> NodesKept(old(Nodes()))
      ensures fate == if sharedTemp == Some(leaf) then Frees else Fine
      ensures fate.Fine? ==> Zip(store, root, c, x) && store.Keys == PtrsC(c) + Ptrs(x) + {node}
      ensures fate.Fine? ==> node in store && store[node] == old(store[node])
    {
      if sharedTemp == Some(leaf) {
        return Frees;
      }
      ghost var s0 := store;
      Free(leaf);
      ZipFrame(s0, store, root, c, x);
      fate := Fine;
    }

    /** The shared node, linked or not; without one, a node that is not in use. */
    method GetTempNode() returns (temp: Ptr)
      ensures sharedTemp.Some? ==> temp == sharedTemp.value
      ensures sharedTemp.None? ==> temp !in store
    {
      if sharedTemp.Some? {
        return sharedTemp.value;
      }
      ghost var bound := FreshPtr(store.Keys);
      assert bound !in store;
      temp :| temp !in store;
    }

    method FindMin(node0: Ptr, ghost c0: Ctx, ghost t0: Tree) returns (node: Ptr)
      requires Zip(store, root, c0, t0) && t0.Fork? && Plain(t0) && t0.p == node0
      ensures node == MinTree(t0).p
    {
      node := node0;
      ghost var c, t := c0, t0;
      Upward(store, root, c, t);
      ZipDown(store, root, c, t, Left);
      Upward(store, root, Push(Left, t, c), t.left);
      while store[store[node].left].Branch?
        invariant Zip(store, root, c, t) && t.Fork? && Plain(t) && t.p == node && MinTree(t) == MinTree(t0)
        invariant node in store && store[node].Branch? && store[node].left == t.left.p && t.left.p in store
        invariant store[t.left.p].Branch? == t.left.Fork?
        decreases t
      {
        node := store[node].left;
        c, t := Push(Left, t, c), t.left;
        Upward(store, root, c, t);
        ZipDown(store, root, c, t, Left);
        Upward(store, root, Push(Left, t, c), t.left);
      }
    }

    /**
     * Removes the pivot of branch `b` and one of the two gaps at it. A removal that writes the linked shared
     * node is followed up to that write.
     */
    method DeleteBranch(b: Ptr, ghost c: Ctx, ghost t: Tree) returns (fate: Fate, ghost w: Tree, ghost k: Ptr)
      requires Zip(store, root, c, t) && t.Fork? && t.p == b && store.Keys == PtrsC(c) + Ptrs(t)
      requires Removable(c, t) && Target(t).pivot % 4 == 0
      requires sharedTemp.Some? ==> sharedTemp.value !in ForksC(c) + Forks(t)
      modifies this`store, this`root, this`nodesLeft
      ensures fate.Fine? ==> NodesKept(old(Nodes()))
      ensures fate == RemoveFate(sharedTemp, c, t)
      ensures fate.Overwrites? ==> !Readable(store, root)
      ensures fate.Fine? ==> Zip(store, root, Top, w) && store.Keys == Ptrs(w) && Balanced(w) && TreeColor(w).Black?
      ensures fate.Fine? ==> SameFlat(Plug(TargetCtx(c, t), Lone(Target(t), k)), w) && ExactOff(w, Keeper(t, k))
      ensures fate.Fine? ==> w == Removed(c, t, if sharedTemp.Some? then sharedTemp.value else k)
      ensures fate.Fine? ==> k == Moved(Target(t), k).p
      ensures fate.Fine? && Takes(Target(t)) ==> k in Ptrs(w) && (sharedTemp.Some? ==> k == sharedTemp.value)
    {
      w, k := t, b;
      BalancedPlain(t);
      var movedUpNode, movedUpParent, deleteNodeColor;
      ghost var x;
      fate, movedUpNode, movedUpParent, deleteNodeColor, x := TakeOut(b, c, t);
      if !fate.Fine? {
        return;
      }
      k := x.p;
      w := Repair(movedUpNode, movedUpParent, deleteNodeColor, c, t, x);
      RemovedSafely(sharedTemp, c, t, k);
    }

    /** The fix-up where a black branch is gone, then the gap data above. */
    method Repair(movedUpNode: Ptr, movedUpParent: Option<Ptr>, deleteNodeColor: Color, ghost c: Ctx, ghost t: Tree, ghost x: Tree)
      returns (ghost w: Tree)
      requires Removable(c, t) && x == Moved(Target(t), x.p)
      requires Zip(store, root, TargetCtx(c, t), x) && store.Keys == PtrsC(TargetCtx(c, t)) + Ptrs(x)
      requires movedUpNode == x.p && movedUpParent == ParentOf(TargetCtx(c, t)) && deleteNodeColor == Target(t).color
      requires Takes(Target(t)) && sharedTemp.Some? ==> x.p == sharedTemp.value
      modifies this`store, this`root, this`nodesLeft
      ensures NodesKept(old(Nodes()))
      ensures w == Removed(c, t, x.p) && Zip(store, root, Top, w) && store.Keys == Ptrs(w)
    {
      ghost var e, y := TargetCtx(c, t), x;
      if deleteNodeColor == Black {
        MovedReady(c, t, x.p);
        e, y := FixAndSettle(movedUpNode, e, x, Keeper(t, x.p));
      }
      w := UpdateAbove(movedUpParent, e, y);
      RemovedIs(c, t, x, e, y, w);
    }

    /** Takes the target of the deletion out of the tree and frees its node. */
    method TakeOut(b: Ptr, ghost c: Ctx, ghost t: Tree)
      returns (fate: Fate, movedUpNode: Ptr, movedUpParent: Option<Ptr>, deleteNodeColor: Color, ghost x: Tree)
      requires Zip(store, root, c, t) && t.Fork? && Plain(t) && t.p == b && store.Keys == PtrsC(c) + Ptrs(t)
      requires LastLeaf(t.left).leaf.Empty? && FirstLeaf(t.right).leaf.Empty? && Target(t).pivot % 4 == 0
      requires sharedTemp.Some? ==> sharedTemp.value !in ForksC(c) + Forks(t)
      modifies this`store, this`root, this`nodesLeft
      ensures fate.Fine? ==> NodesKept(old(Nodes()))
      ensures fate == RemoveFate(sharedTemp, c, t)
      ensures fate.Overwrites? ==> !Readable(store, root)
      ensures fate.Fine? ==> Zip(store, root, TargetCtx(c, t), x) && store.Keys == PtrsC(TargetCtx(c, t)) + Ptrs(x)
      ensures fate.Fine? ==>
        movedUpNode == x.p && movedUpParent == ParentOf(TargetCtx(c, t)) && deleteNodeColor == Target(t).color
      ensures fate.Fine? ==> x == Moved(Target(t), x.p) && (Takes(Target(t)) && sharedTemp.Some? ==> x.p == sharedTemp.value)
    {
      ghost var cx, st := TargetCtx(c, t), Target(t);
      var target := FindTarget(b, c, t);
      TargetPtrs(c, t);
      TargetForks(c, t);
      FirstLeafTarget(t);
      deleteNodeColor := Black;
      fate, movedUpNode, movedUpParent, x := DeleteNodeWithZeroOrOneChild(target, cx, st);
      if !fate.Fine? {
        return;
      }
      deleteNodeColor := store[target].color;
      ghost var s0 := store;
      Free(target);
      ZipFrame(s0, store, root, cx, x);
    }

    /** The branch itself, or its successor, whose pivot and gap data it takes over. */
    method FindTarget(b: Ptr, ghost c: Ctx, ghost t: Tree) returns (target: Ptr)
      requires Zip(store, root, c, t) && t.Fork? && Plain(t) && t.p == b && Target(t).pivot % 4 == 0
      modifies this`store
      ensures store.Keys == old(store.Keys) && target == Target(t).p && Zip(store, root, TargetCtx(c, t), Target(t))
    {
      Upward(store, root, c, t);
      ZipDown(store, root, c, t, Left);
      Upward(store, root, Push(Left, t, c), t.left);
      ZipDown(store, root, c, t, Right);
      Upward(store, root, Push(Right, t, c), t.right);
      target := b;
      if store[store[b].left].Branch? && store[store[b].right].Branch? {
        target := FindMin(store[b].right, Push(Right, t, c), t.right);
        ZipMin(store, root, Push(Right, t, c), t.right);
        Upward(store, root, MinCtx(t.right, Push(Right, t, c)), Target(t));
        ZipSet(store, root, c, t, Repivoted(t));
        store := store[b := store[b].(pivot := MaskPivot(store[target].pivot), maxEmpty := store[target].maxEmpty)];
      }
      ZipTarget(store, root, c, t);
    }

    method FixAndSettle(movedUpNode: Ptr, ghost c: Ctx, ghost x: Tree, ghost q: Ptr) returns (ghost e: Ctx, ghost y: Tree)
      requires Zip(store, root, c, x) && store.Keys == PtrsC(c) + Ptrs(x) && movedUpNode == x.p
      requires x.Fork? && Short(c, 0, q) && (x.temp ==> x.color.Black? && x.left.Tip? && x.right.Tip?)
      requires x.temp ==> (x.left.leaf.Empty? || x.right.leaf.Empty?) && (sharedTemp.Some? ==> x.p == sharedTemp.value)
      modifies this`store, this`root, this`nodesLeft
      ensures NodesKept(old(Nodes()))
      ensures Zip(store, root, e, y) && store.Keys == PtrsC(e) + Ptrs(y)
      ensures e == Fixed(c, x) && y == SettledAs(e, x) && ParentOf(e) == ParentOf(c)
    {
      e := FixDelete(movedUpNode, c, x, 0, q);
      y := if e.Top? then x.(color := Black) else x;
      Upward(store, root, e, y);
      if store[movedUpNode].temp {
        KeepSurvivor(movedUpNode, e, y);
        y := SettledAs(e, x);
      }
    }

    /** The temporary branch becomes the leaf that is left of its two leaves. */
    method KeepSurvivor(movedUpNode: Ptr, ghost e: Ctx, ghost y: Tree)
      requires Zip(store, root, e, y) && store.Keys == PtrsC(e) + Ptrs(y) && movedUpNode == y.p
      requires y.Fork? && y.left.Tip? && y.right.Tip? && (y.left.leaf.Empty? || y.right.leaf.Empty?)
      requires sharedTemp.Some? ==> y.p == sharedTemp.value
      modifies this`store, this`nodesLeft
      ensures NodesKept(old(Nodes()))
      ensures var tip := Tip(y.p, if y.left.leaf.Used? then y.left.leaf else y.right.leaf);
        Zip(store, root, e, tip) && store.Keys == PtrsC(e) + Ptrs(tip)
    {
      Upward(store, root, e, y);
      LeavesOf(store, root, e, y);
      var leftChild, rightChild := store[movedUpNode].left, store[movedUpNode].right;
      var survivor := if store[leftChild].leaf.Used? then leftChild else rightChild;
      assert store[leftChild].leaf.Used? ==> !store[rightChild].leaf.Used?;
      ghost var s0 := store;
      Overtake(movedUpNode, survivor, leftChild, rightChild);
      Survived(s0, store, root, e, y, if y.left.leaf.Used? then y.left.leaf else y.right.leaf);
    }

    /** The leaf moves into the node above, and both leaves are freed. */
    method Overtake(node: Ptr, survivor: Ptr, leftChild: Ptr, rightChild: Ptr)
      requires node in store && survivor in store && leftChild in store && rightChild in store && leftChild != rightChild
      requires node != leftChild && node != rightChild && sharedTemp != Some(leftChild) && sharedTemp != Some(rightChild)
      modifies this`store, this`nodesLeft
      ensures store == old(store)[node := old(store[survivor])] - {leftChild} - {rightChild} && Nodes() == old(Nodes())
    {
      store := store[node := store[survivor]];
      assert store.Keys == old(store).Keys;
      Free(leftChild);
      Free(rightChild);
    }

    /** Gap data recomputed from the parent of the moved node up to the root. */
    method UpdateAbove(parent: Option<Ptr>, ghost e: Ctx, ghost y: Tree) returns (ghost w: Tree)
      requires Zip(store, root, e, y) && parent == ParentOf(e)
      modifies this`store
      ensures Zip(store, root, Top, w) && store.Keys == old(store.Keys)
      ensures w == Above(e, y)
    {
      w := y;
      if parent.Some? {
        ZipUp(store, root, e, y);
        UpdateMaxEmptyAreaData(parent.value, e.up, Pull(e, y));
        w := Updated(e.up, Pull(e, y));
      }
    }

    // ----- deletion -----

    method MaxLeaf(node0: Ptr, ghost c0: Ctx, ghost t0: Tree) returns (node: Ptr)
      requires Zip(store, root, c0, t0) && Plain(t0) && t0.p == node0
      ensures node == LastLeaf(t0).p && node in store && store[node] == LeafNode(LastLeaf(t0).leaf)
    {
      node := node0;
      ghost var c, t := c0, t0;
      Upward(store, root, c, t);
      while store[node].Branch?
        invariant Zip(store, root, c, t) && Plain(t) && t.p == node && LastLeaf(t) == LastLeaf(t0)
        invariant node in store && (t.Fork? ==> store[node] == NodeOf(t, ParentOf(c)))
        invariant t.Tip? ==> store[node] == LeafNode(t.leaf)
        decreases t
      {
        ZipDown(store, root, c, t, Right);
        node := store[node].right;
        c, t := Push(Right, t, c), t.right;
        Upward(store, root, c, t);
      }
    }

    method MinLeaf(node0: Ptr, ghost c0: Ctx, ghost t0: Tree) returns (node: Ptr)
      requires Zip(store, root, c0, t0) && Plain(t0) && t0.p == node0
      ensures node == FirstLeaf(t0).p && node in store && store[node] == LeafNode(FirstLeaf(t0).leaf)
    {
      node := node0;
      ghost var c, t := c0, t0;
      Upward(store, root, c, t);
      while store[node].Branch?
        invariant Zip(store, root, c, t) && Plain(t) && t.p == node && FirstLeaf(t) == FirstLeaf(t0)
        invariant node in store && (t.Fork? ==> store[node] == NodeOf(t, ParentOf(c)))
        invariant t.Tip? ==> store[node] == LeafNode(t.leaf)
        decreases t
      {
        ZipDown(store, root, c, t, Left);
        node := store[node].left;
        c, t := Push(Left, t, c), t.left;
        Upward(store, root, c, t);
      }
    }

    /** Writes the joined size into both gaps at the pivot of `branch` and removes the branch. */
    method JoinAt(branch: Ptr, leftMax: Ptr, rightMin: Ptr, ghost c: Ctx, ghost t: Tree)
      returns (fate: Fate, ghost w: Tree, ghost q: Ptr)
      requires Zip(store, root, c, t) && t.Fork? && t.p == branch && store.Keys == PtrsC(c) + Ptrs(t)
      requires leftMax == LastLeaf(t.left).p && rightMin == FirstLeaf(t.right).p && BetweenGaps(t)
      requires Balanced(t) && Fits(c, BlackHeight(t), t.color) && TopColor(c, t.color).Black?
      requires ExactC(c) && Exact(t.left) && Exact(t.right) && Ordered(Pivots(Plug(c, t)))
      requires LeafOnly(sharedTemp, Plug(c, t))
      modifies this`store, this`root, this`nodesLeft
      ensures fate.Fine? ==> NodesKept(old(Nodes()))
      ensures fate == RemoveFate(sharedTemp, c, Combined(t))
      ensures fate.Overwrites? ==> !Readable(store, root)
      ensures fate.Fine? ==> Zip(store, root, Top, w) && store.Keys == Ptrs(w)
      ensures fate.Fine? ==> Balanced(w) && TreeColor(w).Black? && ExactOff(w, q) && TempStays(sharedTemp, Plug(c, t), w)
      ensures fate.Fine? ==>
        Areas(w) == LeftOf(c, t) + [JoinedArea(c, t)] + RightOf(c, t) && HeldBy(w, |LeftOf(c, t)|, q)
      ensures fate.Fine? && sharedTemp.Some? ==> w == Removed(c, Combined(t), sharedTemp.value)
    {
      BalancedPlain(t);
      WriteGaps(leftMax, rightMin, c, t);
      CombinedReady(c, t);
      PlugForks(c, t);
      ghost var k;
      fate, w, k := DeleteBranch(branch, c, Combined(t));
      q := Keeper(Combined(t), k);
      if fate.Fine? {
        CombinedRemoved(sharedTemp, c, t, k, w);
      }
    }

    method WriteGaps(leftMax: Ptr, rightMin: Ptr, ghost c: Ctx, ghost t: Tree)
      requires Zip(store, root, c, t) && t.Fork? && Plain(t)
      requires leftMax == LastLeaf(t.left).p && rightMin == FirstLeaf(t.right).p
      requires BetweenGaps(t)
      modifies this`store
      ensures store.Keys == old(store.Keys) && Zip(store, root, c, Combined(t))
    {
      ZipDown(store, root, c, t, Left);
      LeafStored(store, t.left, Some(t.p));
      ZipDown(store, root, c, t, Right);
      LeafStored(store, t.right, Some(t.p));
      var combinedSize := store[leftMax].leaf.size + store[rightMin].leaf.size;
      ZipSetLast(store, root, Push(Left, t, c), t.left, Empty(combinedSize));
      store := store[leftMax := LeafNode(Empty(combinedSize))];
      ghost var l := SetLast(t.left, Empty(combinedSize));
      ghost var t1 := t.(left := l);
      ZipUp(store, root, Push(Left, t, c), l);
      assert Pull(Push(Left, t, c), l) == t1;
      ZipDown(store, root, c, t1, Right);
      ZipSetFirst(store, root, Push(Right, t1, c), t.right, Empty(combinedSize));
      store := store[rightMin := LeafNode(Empty(combinedSize))];
      ZipUp(store, root, Push(Right, t1, c), SetFirst(t.right, Empty(combinedSize)));
    }

    /**
     * Turns the segment that contains `addr` into a gap and joins it with the gaps beside it. How it
     * ends, and with the shared node also the tree it leaves, is what `DeleteRun` says of the tree before;
     * it ends well exactly if the tree and the address are safe. A deletion that writes the linked node is
     * followed up to that write, after which the root leads to no tree.
     */
    method Delete(addr: nat) returns (fate: Fate)
      requires Valid() && addr <= HIGHEST_USER_ADDRESS
      requires exists s :: s in Segments(Areas(shape)) && Contains(s, addr)
      modifies this
      ensures fate == DeleteFate(sharedTemp, old(shape), addr)
      ensures fate.Fine? <==> sharedTemp.None? || SafeToDelete(sharedTemp.value, old(shape), addr)
      ensures fate.Overwrites? ==> !Readable(store, root)
      ensures fate.Fine? ==> Valid() && Sized(Areas(shape))
      ensures fate.Fine? ==> Segments(Areas(shape)) == Without(old(Segments(Areas(shape))), addr)
      ensures fate.Fine? && sharedTemp.Some? ==> shape == DeleteRun(sharedTemp.value, old(shape), addr).tree
      ensures fate.Fine? && old(Linked(sharedTemp, shape)) ==> Linked(sharedTemp, shape)
      ensures fate.Fine? ==> NodesKept(old(Nodes()))
    {
      SafeIff(sharedTemp, shape, addr);
      var leaf, parentAndSide, c, t := MakeGap(addr);
      if parentAndSide.None? {
        shape := t;
        fate := Fine;
      } else {
        ghost var w;
        fate, w := JoinGaps(addr, leaf, parentAndSide.value.0, parentAndSide.value.1, c, t);
        shape := w;
      }
    }

    /** The leaf of the segment that contains `addr` becomes a gap. */
    method MakeGap(addr: nat) returns (leaf: Ptr, parentAndSide: Option<(Ptr, Side)>, ghost c: Ctx, ghost t: Tree)
      requires Valid() && addr <= HIGHEST_USER_ADDRESS
      requires exists s :: s in Segments(Areas(shape)) && Contains(s, addr)
      modifies this`store
      ensures var (c', t') := LeafFor(Top, shape, addr); c == c' && t == Gapped(c', t')
      ensures SoundAround(store, root, c, t) && leaf == t.p && parentAndSide == ParentSide(c)
      ensures t.leaf.Empty? && Ordered(Pivots(Plug(c, t))) && Joining(Plug(c, t), |SlotsBefore(c)|, leaf, addr)
      ensures Segments(Areas(Plug(c, t))) == Without(Segments(Areas(shape)), addr)
      ensures TempStays(sharedTemp, shape, Plug(c, t))
      ensures store.Keys == old(store.Keys)
    {
      BalancedPlain(shape);
      var leafStart, leafEnd;
      leaf, parentAndSide, leafStart, leafEnd, c, t := GetLeafContaining(addr, shape);
      FoundSegment(c, t, addr);
      Upward(store, root, c, t);
      assert store[leaf].LeafNode? && store[leaf].leaf.Used?;
      GapMade(sharedTemp, store, root, c, t, addr, leafEnd + 1 - leafStart);
      t := Gapped(c, t);
      store := store[leaf := LeafNode(Empty(leafEnd + 1 - leafStart))];
    }

    /** The new gap is joined with its sibling leaf, then with any gap met at a pivot above. */
    method JoinGaps(addr: nat, leaf: Ptr, parent: Ptr, side: Side, ghost c: Ctx, ghost t: Tree)
      returns (fate: Fate, ghost w: Tree)
      requires SoundAround(store, root, c, t) && c.Step? && parent == c.p && side == c.side && leaf == t.p
      requires addr <= HIGHEST_USER_ADDRESS && t.leaf.Empty? && LeafOnly(sharedTemp, Plug(c, t))
      requires Ordered(Pivots(Plug(c, t))) && Joining(Plug(c, t), |SlotsBefore(c)|, leaf, addr)
      modifies this`store, this`root, this`nodesLeft
      ensures fate.Fine? ==> NodesKept(old(Nodes()))
      ensures Follows(sharedTemp, GapRun(NodeIn(sharedTemp), c, t, addr), fate, w)
      ensures fate.Overwrites? ==> !Readable(store, root)
      ensures fate.Fine? ==> Sound(store, root, w) && NoAdjacentGaps(Areas(w)) && Sized(Areas(w))
      ensures fate.Fine? ==> Segments(Areas(w)) == Segments(Areas(Plug(c, t))) && TempStays(sharedTemp, Plug(c, t), w)
    {
      Upward(store, root, c, t);
      var sibling := if side.Left? then store[parent].right else store[parent].left;
      ghost var j, q;
      if store[sibling].LeafNode? && store[sibling].leaf.Empty? {
        fate, w, j, q := JoinSibling(addr, leaf, sibling, parent, side, c, t);
        if !fate.Fine? {
          return;
        }
      } else {
        StaleAround(store, root, c, t);
        w, j, q := Plug(c, t), |SlotsBefore(c)|, leaf;
      }
      fate, w := GapJoinLoop(addr, w, j, q);
    }

    method JoinSibling(addr: nat, leaf: Ptr, sibling: Ptr, parent: Ptr, side: Side, ghost c: Ctx, ghost t: Tree)
      returns (fate: Fate, ghost w: Tree, ghost j: nat, ghost q: Ptr)
      requires SoundAround(store, root, c, t) && c.Step? && leaf == t.p && sibling == c.sib.p
      requires parent == c.p && side == c.side && LeafOnly(sharedTemp, Plug(c, t))
      requires t.leaf.Empty? && c.sib.Tip? && c.sib.leaf.Empty?
      requires Ordered(Pivots(Plug(c, t))) && Joining(Plug(c, t), |SlotsBefore(c)|, leaf, addr)
      modifies this`store, this`root, this`nodesLeft
      ensures fate.Fine? ==> NodesKept(old(Nodes()))
      ensures fate == RemoveFate(sharedTemp, c.up, Combined(Pull(c, t)))
      ensures fate.Overwrites? ==> !Readable(store, root)
      ensures fate.Fine? ==> Stale(store, root, w, q) && Joining(w, j, q, addr) && TempStays(sharedTemp, Plug(c, t), w)
      ensures fate.Fine? ==> Segments(Areas(w)) == Segments(Areas(Plug(c, t))) && |Slots(w)| < |Slots(Plug(c, t))|
      ensures fate.Fine? && sharedTemp.Some? ==> w == Removed(c.up, Combined(Pull(c, t)), sharedTemp.value)
    {
      Upward(store, root, c, t);
      ghost var p := Pull(c, t);
      ZipUp(store, root, c, t);
      SiblingReady(c, t);
      j := 0;
      fate, w, q := JoinAt(parent, if side.Left? then leaf else sibling, if side.Left? then sibling else leaf, c.up, p);
      if fate.Fine? {
        j := |LeftOf(c.up, p)|;
        JoinedStep(c.up, p, w, |SlotsBefore(c)|, leaf, q, addr);
      }
    }

    method GapJoinLoop(addr: nat, ghost w0: Tree, ghost j0: nat, ghost q0: Ptr) returns (fate: Fate, ghost w: Tree)
      requires Stale(store, root, w0, q0) && Joining(w0, j0, q0, addr) && addr <= HIGHEST_USER_ADDRESS
      requires LeafOnly(sharedTemp, w0)
      modifies this`store, this`root, this`nodesLeft
      ensures fate.Fine? ==> NodesKept(old(Nodes()))
      ensures Follows(sharedTemp, LoopRun(NodeIn(sharedTemp), w0, addr), fate, w)
      ensures fate.Overwrites? ==> !Readable(store, root)
      ensures fate.Fine? ==> Sound(store, root, w) && NoAdjacentGaps(Areas(w)) && Sized(Areas(w))
      ensures fate.Fine? ==> Segments(Areas(w)) == Segments(Areas(w0)) && TempStays(sharedTemp, w0, w)
    {
      w, fate := w0, Fine;
      ghost var j, q := j0, q0;
      var again := true;
      while again
        invariant !again ==> Follows(sharedTemp, LoopRun(NodeIn(sharedTemp), w0, addr), fate, w)
        invariant again ==> fate.Fine? && Stale(store, root, w, q) && Joining(w, j, q, addr)
        invariant again && sharedTemp.Some? ==> LoopRun(sharedTemp.value, w, addr) == LoopRun(sharedTemp.value, w0, addr)
        invariant !again && fate.Fine? ==> Sound(store, root, w) && NoAdjacentGaps(Areas(w)) && Sized(Areas(w))
        invariant fate.Fine? ==> NodesKept(old(Nodes()))
        invariant fate.Overwrites? ==> !Readable(store, root)
        invariant fate.Fine? ==> Segments(Areas(w)) == Segments(Areas(w0)) && TempStays(sharedTemp, w0, w)
        decreases again, |Slots(w)|
      {
        fate, again, w, j, q := JoinRound(addr, w, j, q);
      }
    }

    /** One round: refresh the gap data above the gap, then climb until a pivot separates two gaps. */
    method JoinRound(addr: nat, ghost w: Tree, ghost j: nat, ghost q: Ptr)
      returns (fate: Fate, again: bool, ghost w': Tree, ghost j': nat, ghost q': Ptr)
      requires Stale(store, root, w, q) && Joining(w, j, q, addr) && addr <= HIGHEST_USER_ADDRESS
      requires LeafOnly(sharedTemp, w)
      modifies this`store, this`root, this`nodesLeft
      ensures fate.Fine? ==> NodesKept(old(Nodes()))
      ensures again ==> fate.Fine? && Stale(store, root, w', q') && Joining(w', j', q', addr) && |Slots(w')| < |Slots(w)|
      ensures !again && fate.Fine? ==> Sound(store, root, w') && NoAdjacentGaps(Areas(w')) && Sized(Areas(w'))
      ensures fate.Fine? ==> Segments(Areas(w')) == Segments(Areas(w)) && TempStays(sharedTemp, w, w')
      ensures fate.Overwrites? ==> !Readable(store, root)
      ensures again && sharedTemp.Some? ==> LoopRun(sharedTemp.value, w, addr) == LoopRun(sharedTemp.value, w', addr)
      ensures !again ==> Follows(sharedTemp, LoopRun(NodeIn(sharedTemp), w, addr), fate, w')
    {
      BalancedPlain(w);
      var _, parentAndSide, _, _, c, t := GetLeafContaining(addr, w);
      FoundArea(c, t, j, addr);
      ghost var w1 := UpdateAbove(ParentOfSide(parentAndSide), c, t);
      assert Nodes() == old(Nodes());
      RefreshedSound(store, root, c, t, w, w1, j, addr);
      ghost var c1 := Refreshed(c, Gap(t));
      ZipInto(store, root, c1, t);
      fate, again, w', j', q' := ClimbAndJoin(addr, ParentOfSide(parentAndSide), c1, t, w1, j);
      LoopStep(sharedTemp, w, addr, fate, again, w');
    }

    /** The climb ends at the branch that `Meeting` names, and joins there, or at the root. */
    method ClimbAndJoin(addr: nat, parent: Option<Ptr>, ghost c0: Ctx, ghost t0: Tree, ghost w: Tree, ghost j: nat)
      returns (fate: Fate, again: bool, ghost w': Tree, ghost j': nat, ghost q': Ptr)
      requires Sound(store, root, w) && Zip(store, root, c0, t0) && Plug(c0, t0) == w && parent == ParentOf(c0)
      requires Joining(w, j, t0.p, addr) && Clean(c0, t0, j) && LeafOnly(sharedTemp, w)
      modifies this`store, this`root, this`nodesLeft
      ensures fate.Fine? ==> NodesKept(old(Nodes()))
      ensures again ==> fate.Fine? && Stale(store, root, w', q') && Joining(w', j', q', addr) && |Slots(w')| < |Slots(w)|
      ensures !again && fate.Fine? ==> Sound(store, root, w') && NoAdjacentGaps(Areas(w')) && Sized(Areas(w'))
      ensures fate.Fine? ==> Segments(Areas(w')) == Segments(Areas(w)) && TempStays(sharedTemp, w, w')
      ensures fate.Overwrites? ==> !Readable(store, root)
      ensures Joined(sharedTemp, Meeting(c0, t0), fate, again, w, w')
    {
      var current := parent;
      ghost var c, t := c0, t0;
      while current.Some?
        invariant store == old(store) && root == old(root) && nodesLeft == old(nodesLeft)
        invariant Zip(store, root, c, t) && Plug(c, t) == w && current == ParentOf(c) && Clean(c, t, j)
        invariant Meeting(c, t) == Meeting(c0, t0)
        decreases Depth(c)
      {
        var branch := current.value;
        ghost var p := Pull(c, t);
        ZipUp(store, root, c, t);
        FocusReady(c.up, p);
        var leftMax, rightMin := LeavesAt(branch, c.up, p);
        if store[leftMax].leaf.Empty? && store[rightMin].leaf.Empty? {
          assert Nodes() == old(Nodes());
          fate, w', j', q' := JoinHere(addr, branch, leftMax, rightMin, c.up, p, j, t0.p);
          again := fate.Fine?;
          return;
        }
        CleanUp(c, t, j);
        Upward(store, root, c.up, p);
        current := store[branch].parent;
        c, t := c.up, p;
      }
      return Fine, false, w, j, t0.p;
    }

    method JoinHere(addr: nat, branch: Ptr, leftMax: Ptr, rightMin: Ptr, ghost c: Ctx, ghost p: Tree, ghost j: nat, ghost q: Ptr)
      returns (fate: Fate, ghost w: Tree, ghost j': nat, ghost q': Ptr)
      requires Sound(store, root, Plug(c, p)) && Zip(store, root, c, p) && BetweenGaps(p) && p.p == branch
      requires leftMax == LastLeaf(p.left).p && rightMin == FirstLeaf(p.right).p
      requires Joining(Plug(c, p), j, q, addr) && LeafOnly(sharedTemp, Plug(c, p))
      modifies this`store, this`root, this`nodesLeft
      ensures fate.Fine? ==> NodesKept(old(Nodes()))
      ensures fate == RemoveFate(sharedTemp, c, Combined(p)) && (fate.Overwrites? ==> !Readable(store, root))
      ensures fate.Fine? ==> Stale(store, root, w, q') && Joining(w, j', q', addr) && |Slots(w)| < |Slots(Plug(c, p))|
      ensures fate.Fine? ==> Segments(Areas(w)) == Segments(Areas(Plug(c, p))) && TempStays(sharedTemp, Plug(c, p), w)
      ensures fate.Fine? && sharedTemp.Some? ==> w == Removed(c, Combined(p), sharedTemp.value)
    {
      FocusReady(c, p);
      fate, w, q' := JoinAt(branch, leftMax, rightMin, c, p);
      j' := |LeftOf(c, p)|;
      if fate.Fine? {
        JoinedStep(c, p, w, j, q, q', addr);
      }
    }

    /** The two leaves on either side of a branch's pivot. */
    method LeavesAt(branch: Ptr, ghost c: Ctx, ghost p: Tree) returns (leftMax: Ptr, rightMin: Ptr)
      requires Zip(store, root, c, p) && p.Fork? && p.p == branch && Plain(p) && Plain(p.left) && Plain(p.right)
      ensures leftMax == LastLeaf(p.left).p && leftMax in store && store[leftMax] == LeafNode(LastLeaf(p.left).leaf)
      ensures rightMin == FirstLeaf(p.right).p && rightMin in store && store[rightMin] == LeafNode(FirstLeaf(p.right).leaf)
    {
      Upward(store, root, c, p);
      ZipDown(store, root, c, p, Left);
      ZipDown(store, root, c, p, Right);
      leftMax := MaxLeaf(store[branch].left, Push(Left, p, c), p.left);
      rightMin := MinLeaf(store[branch].right, Push(Right, p, c), p.right);
    }

    // ----- locking -----

    /** The lock bit of one leaf is rewritten in place; its segment is the only one that changes. */
    method SetLocked(leaf: Ptr, locked: bool, ghost c: Ctx, ghost t: Tree)
      requires Valid() && Zip(store, root, c, t) && Plug(c, t) == shape && t.Tip? && t.leaf.Used? && leaf == t.p
      requires LowOf(c) < HighOf(c)
      modifies this
      ensures Valid() && shape == Plug(c, Tip(t.p, Used(t.leaf.flags.(locked := locked)))) && nodesLeft == old(nodesLeft)
      ensures Zip(store, root, c, Tip(t.p, Used(t.leaf.flags.(locked := locked))))
      ensures Segments(Areas(shape)) == Without(old(Segments(Areas(shape))), LowOf(c)) +
        {Segment(LowOf(c), HighOf(c) - LowOf(c), t.leaf.flags.(locked := locked))}
      ensures Segment(LowOf(c), HighOf(c) - LowOf(c), t.leaf.flags) in old(Segments(Areas(shape)))
    {
      SoundFocus(store, root, c, t);
      Upward(store, root, c, t);
      var flags := store[leaf].leaf.flags.(locked := locked);
      RelockedAreas(c, t, flags);
      RelockedSegments(c, t, flags);
      RelockedGood(store, root, c, t, flags);
      ZipSetLeaf(store, root, c, t, Used(flags));
      store := store[leaf := LeafNode(Used(flags))];
      ZipTop(store, root, c, Tip(t.p, Used(flags)));
      PlugForks(c, t);
      PlugForks(c, Tip(t.p, Used(flags)));
      shape := Plug(c, Tip(t.p, Used(flags)));
    }

    // ----- dropping the tree -----

    /**
     * Every node is freed once and none is left; the shared node is among them if and only if it is
     * linked. The recursion is as deep as the tree is high, which is logarithmic.
     */
    method Drop() returns (freesShared: bool, ghost depth: nat)
      requires Valid()
      modifies this`store, this`nodesLeft
      ensures Nodes() == old(Nodes())
      ensures store == map[] && freesShared == Linked(sharedTemp, shape)
      ensures depth == Height(shape) && Pow2((depth + 1) / 2) <= Branches(shape) + 1
    {
      LogarithmicHeight(shape);
      freesShared, depth := DropSubtree(root, shape, None);
    }

    method DropSubtree(node: Ptr, ghost t: Tree, ghost up: Option<Ptr>) returns (freesShared: bool, ghost depth: nat)
      requires Rep(store, t, up) && Distinct(t) && node == t.p
      modifies this`store, this`nodesLeft
      ensures Nodes() == old(Nodes())
      ensures store == old(store) - Ptrs(t) && freesShared == Linked(sharedTemp, t) && depth == Height(t)
      decreases t
    {
      depth := 0;
      freesShared := sharedTemp == Some(node);
      if store[node].Branch? {
        var branch := store[node];
        var freesLeft, leftDepth := DropSubtree(branch.left, t.left, Some(node));
        RepFrame(old(store), store, t.right, Some(node));
        var freesRight, rightDepth := DropSubtree(branch.right, t.right, Some(node));
        freesShared := freesShared || freesLeft || freesRight;
        depth := 1 + Max(leftDepth, rightDepth);
      }
      if sharedTemp == Some(node) {
        assert StorageNodes(store.Keys - {node}, sharedTemp) == StorageNodes(store.Keys, sharedTemp);
      } else {
        OneLess(store.Keys, sharedTemp, node);
        nodesLeft := nodesLeft + 1;
      }
      store := store - {node};
    }

    // ----- node storage -----

    /** Some unused node, or None when no page for more nodes can be had. */
    method FindAndReserveNode() returns (r: Option<Ptr>)
      modifies this`store, this`nodesLeft
      ensures r.None? <==> old(nodesLeft) == 0
      ensures nodesLeft == old(nodesLeft) - if r.Some? then 1 else 0
      ensures r.None? ==> store == old(store)
      ensures r.Some? ==> r.value !in old(store) && store == old(store)[r.value := PLACEHOLDER]
      ensures sharedTemp.Some? ==> r != sharedTemp
    {
      if nodesLeft == 0 {
        return None;
      }
      nodesLeft := nodesLeft - 1;
      ghost var bound := FreshPtr(store.Keys + if sharedTemp.Some? then {sharedTemp.value} else {});
      assert bound !in store && sharedTemp != Some(bound);
      var p: Ptr :| p !in store && sharedTemp != Some(p);
      store := store[p := PLACEHOLDER];
      return Some(p);
    }

    method NewLeaf(leaf: Leaf) returns (r: Option<Ptr>)
      modifies this`store, this`nodesLeft
      ensures r.None? <==> old(nodesLeft) == 0
      ensures nodesLeft == old(nodesLeft) - if r.Some? then 1 else 0
      ensures r.None? ==> store == old(store)
      ensures r.Some? ==> r.value !in old(store) && store == old(store)[r.value := LeafNode(leaf)]
      ensures sharedTemp.Some? ==> r != sharedTemp
    {
      r := FindAndReserveNode();
      if r.Some? {
        store := store[r.value := LeafNode(leaf)];
      }
    }

    method NewBranchNode(pivot: nat, parent: Option<Ptr>, left: Ptr, right: Ptr) returns (r: Option<Ptr>)
      modifies this`store, this`nodesLeft
      ensures r.None? <==> old(nodesLeft) == 0
      ensures nodesLeft == old(nodesLeft) - if r.Some? then 1 else 0
      ensures r.None? ==> store == old(store)
      ensures r.Some? ==> r.value !in old(store)
      ensures r.Some? ==> store == old(store)[r.value := NewBranch(pivot, false, parent, left, right)]
      ensures sharedTemp.Some? ==> r != sharedTemp
    {
      r := FindAndReserveNode();
      if r.Some? {
        store := store[r.value := NewBranch(pivot, false, parent, left, right)];
      }
    }

    /** A used leaf, and a branch over it and `gap`; both or neither. */
    method NewUsedLeafAndBranch(flags: Flags, pivot: nat, parentAndSide: Option<(Ptr, Side)>, gap: Ptr, gapSide: Side)
      returns (r: Result<(Ptr, Ptr), MapError>)
      modifies this`store, this`nodesLeft
      ensures r.Err? <==> old(nodesLeft) < 2
      ensures nodesLeft == old(nodesLeft) - if r.Ok? then 2 else 0
      ensures r.Err? ==> r.error.OutOfMemory? && store == old(store)
      ensures r.Ok? ==> r.value.0 !in old(store) && r.value.1 !in old(store) && r.value.0 != r.value.1
      ensures r.Ok? ==> sharedTemp != Some(r.value.0) && sharedTemp != Some(r.value.1)
      ensures r.Ok? ==> var (leaf, branch) := r.value;
        store == old(store)[leaf := LeafNode(Used(flags))]
                           [branch := NewBranch(pivot, false, ParentOfSide(parentAndSide),
                                                if gapSide.Left? then gap else leaf,
                                                if gapSide.Left? then leaf else gap)]
    {
      var newUsedLeaf := NewLeaf(Used(flags));
      if newUsedLeaf.None? {
        return Err(OutOfMemory);
      }
      var leaf := newUsedLeaf.value;
      var newBranch := NewBranchNode(pivot, ParentOfSide(parentAndSide),
                                     if gapSide.Left? then gap else leaf, if gapSide.Left? then leaf else gap);
      if newBranch.None? {
        Free(leaf);
        assert store == old(store);
        return Err(OutOfMemory);
      }
      return Ok((leaf, newBranch.value));
    }

    /** The four nodes of an insertion inside a gap; all or none. The start branch is not written yet. */
    method NewInsideNodes(flags: Flags, pivot: nat, size: nat, parentAndSide: Option<(Ptr, Side)>)
      returns (r: Result<(Ptr, Ptr, Ptr, Ptr), MapError>)
      modifies this`store, this`nodesLeft
      ensures r.Err? <==> old(nodesLeft) < 4
      ensures nodesLeft == old(nodesLeft) - if r.Ok? then 4 else 0
      ensures r.Err? ==> r.error.OutOfMemory? && store == old(store)
      ensures r.Ok? ==> var (used, empty, endBranch, startBranch) := r.value;
        && {used, empty, endBranch, startBranch} !! old(store).Keys
        && sharedTemp !in {Some(used), Some(empty), Some(endBranch), Some(startBranch)}
        && used != empty && used != endBranch && used != startBranch
        && empty != endBranch && empty != startBranch && endBranch != startBranch
        && store == old(store)[used := LeafNode(Used(flags))][empty := LeafNode(Empty(size))]
                              [endBranch := NewBranch(pivot, false, ParentOfSide(parentAndSide), used, empty)]
                              [startBranch := PLACEHOLDER]
    {
      var three := NewEndNodes(flags, pivot, size, parentAndSide);
      if three.Err? {
        return Err(three.error);
      }
      var (used, empty, endBranch) := three.value;
      var startBranch := FindAndReserveNode();
      if startBranch.None? {
        Free(endBranch);
        Free(empty);
        Free(used);
        assert store == old(store);
        return Err(OutOfMemory);
      }
      return Ok((used, empty, endBranch, startBranch.value));
    }

    /** The first three of them. */
    method NewEndNodes(flags: Flags, pivot: nat, size: nat, parentAndSide: Option<(Ptr, Side)>)
      returns (r: Result<(Ptr, Ptr, Ptr), MapError>)
      modifies this`store, this`nodesLeft
      ensures r.Err? <==> old(nodesLeft) < 3
      ensures nodesLeft == old(nodesLeft) - if r.Ok? then 3 else 0
      ensures r.Err? ==> r.error.OutOfMemory? && store == old(store)
      ensures r.Ok? ==> var (used, empty, endBranch) := r.value;
        && {used, empty, endBranch} !! old(store).Keys
        && sharedTemp !in {Some(used), Some(empty), Some(endBranch)}
        && used != empty && used != endBranch && empty != endBranch
        && store == old(store)[used := LeafNode(Used(flags))][empty := LeafNode(Empty(size))]
                              [endBranch := NewBranch(pivot, false, ParentOfSide(parentAndSide), used, empty)]
    {
      var used := NewLeaf(Used(flags));
      if used.None? {
        return Err(OutOfMemory);
      }
      var empty := NewLeaf(Empty(size));
      if empty.None? {
        Free(used.value);
        assert store == old(store);
        return Err(OutOfMemory);
      }
      var endBranch := NewBranchNode(pivot, ParentOfSide(parentAndSide), used.value, empty.value);
      if endBranch.None? {
        Free(empty.value);
        Free(used.value);
        assert store == old(store);
        return Err(OutOfMemory);
      }
      return Ok((used.value, empty.value, endBranch.value));
    }

    /** Only nodes of the storage pages are freed. */
    method Free(q: Ptr)
      requires sharedTemp != Some(q) && q in store
      modifies this`store, this`nodesLeft
      ensures store == old(store) - {q} && nodesLeft == old(nodesLeft) + 1 && Nodes() == old(Nodes())
    {
      OneLess(store.Keys, sharedTemp, q);
      store := store - {q};
      nodesLeft := nodesLeft + 1;
    }
  }

  lemma LeavesOf(s: Store, root: Ptr, c: Ctx, t: Tree)
    requires Zip(s, root, c, t) && t.Fork? && t.left.Tip? && t.right.Tip?
    ensures Ptrs(t) == {t.p, t.left.p, t.right.p} && t.p != t.left.p && t.p != t.right.p && t.left.p != t.right.p
    ensures t.left.p in s && s[t.left.p] == LeafNode(t.left.leaf) && t.right.p in s && s[t.right.p] == LeafNode(t.right.leaf)
  {
    assert Rep(s, t.left, Some(t.p)) && Rep(s, t.right, Some(t.p));
  }

  /** A branch over two leaves has become a leaf, and the two are gone. */
  lemma Survived(s: Store, s': Store, root: Ptr, c: Ctx, t: Tree, leaf: Leaf)
    requires Zip(s, root, c, t) && s.Keys == PtrsC(c) + Ptrs(t) && t.Fork? && t.left.Tip? && t.right.Tip?
    requires s' == s[t.p := LeafNode(leaf)] - {t.left.p} - {t.right.p}
    ensures Zip(s', root, c, Tip(t.p, leaf)) && s'.Keys == PtrsC(c) + Ptrs(Tip(t.p, leaf))
  {
    LeavesOf(s, root, c, t);
    ZipReplace(s, s', root, root, c, t, Tip(t.p, leaf));
  }

  ghost function StorageNodes(keys: set<Ptr>, temp: Option<Ptr>): set<Ptr> {
    set p | p in keys && temp != Some(p)
  }

  lemma OneLess(keys: set<Ptr>, temp: Option<Ptr>, q: Ptr)
    requires q in keys && temp != Some(q)
    ensures |StorageNodes(keys - {q}, temp)| + 1 == |StorageNodes(keys, temp)|
  {
    assert StorageNodes(keys, temp) == StorageNodes(keys - {q}, temp) + {q};
  }

  /** A node that is added is the shared one, or one more. */
  lemma OneMore(keys: set<Ptr>, temp: Option<Ptr>, q: Ptr)
    requires q !in keys
    ensures |StorageNodes(keys + {q}, temp)| == |StorageNodes(keys, temp)| + if temp == Some(q) then 0 else 1
  {
    if temp == Some(q) {
      assert StorageNodes(keys + {q}, temp) == StorageNodes(keys, temp);
    } else {
      assert StorageNodes(keys + {q}, temp) == StorageNodes(keys, temp) + {q};
    }
  }

  const PLACEHOLDER: Node := LeafNode(Empty(0))

  lemma {:induction false} FreshPtr(used: set<Ptr>) returns (bound: Ptr)
    ensures forall p | p in used :: p < bound
  {
    bound := 0;
    if used != {} {
      var p :| p in used;
      var below := FreshPtr(used - {p});
      bound := Max(p + 1, below);
      assert forall q | q in used :: q == p || q in used - {p};
    }
  }

  /** The link that leads to the focus. */
  function ParentSide(c: Ctx): Option<(Ptr, Side)> {
    if c.Top? then None else Some((c.p, c.side))
  }

  function ParentOfSide(parentAndSide: Option<(Ptr, Side)>): Option<Ptr> {
    if parentAndSide.None? then None else Some(parentAndSide.value.0)
  }
}
