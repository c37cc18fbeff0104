/**
The nodes of the virtual-memory tree as the kernel stores them: an arena of
branch and leaf records that refer to each other by pointer, with a parent link
in every branch. Beside the arena stand its ghost readings: the tree a pointer
stands for, and a zipper, which is a tree seen from one of its nodes.
*/
module VmaNodes {
  import opened Wrappers

  datatype MapError = SegmentAlreadyExists | OutOfMemory

  /** Identity of a reserved node. */
  type Ptr = nat

  datatype Color = Red | Black

  datatype Side = Left | Right {
    function Other(): Side {
      if Left? then Right else Left
    }
  }

  datatype Flags = Flags(readable: bool, writable: bool, executable: bool, locked: bool)

  datatype Leaf = Empty(size: nat) | Used(flags: Flags)

  datatype Node =
    | Branch(pivot: nat, temp: bool, color: Color, maxEmpty: nat,
             parent: Option<Ptr>, left: Ptr, right: Ptr)
    | LeafNode(leaf: Leaf)

  type Store = map<Ptr, Node>

  const HIGHEST_USER_ADDRESS: nat := 0x7fff_ffff_ffff

  /** A branch packs its colour and its temporary flag in the two low bits of the pivot. */
  function MaskPivot(pivot: nat): (r: nat)
    ensures r % 4 == 0 && r <= pivot < r + 4
  {
    pivot - pivot % 4
  }

  function NewBranch(pivot: nat, temp: bool, parent: Option<Ptr>, left: Ptr, right: Ptr): Node {
    Branch(MaskPivot(pivot), temp, Black, 0, parent, left, right)
  }

  function Max(a: nat, b: nat): nat {
    if a < b then b else a
  }

  /** What a parent reads from a child when it recomputes its largest gap. */
  function NodeGap(n: Node): nat {
    match n
    case Branch(_, _, _, m, _, _, _) => m
    case LeafNode(Used(_)) => 0
    case LeafNode(Empty(size)) => size
  }

  function NodeColor(n: Node): Color {
    if n.Branch? then n.color else Black
  }

  // ----- trees -----

  datatype Tree =
    | Tip(p: Ptr, leaf: Leaf)
    | Fork(p: Ptr, pivot: nat, temp: bool, color: Color, maxEmpty: nat, left: Tree, right: Tree)

  ghost function Ptrs(t: Tree): set<Ptr> {
    match t
    case Tip(p, _) => {p}
    case Fork(p, _, _, _, _, l, r) => {p} + Ptrs(l) + Ptrs(r)
  }

  /** No node occurs twice. */
  ghost predicate Distinct(t: Tree) {
    match t
    case Tip(_, _) => true
    case Fork(p, _, _, _, _, l, r) =>
      p !in Ptrs(l) && p !in Ptrs(r) && Ptrs(l) !! Ptrs(r) && Distinct(l) && Distinct(r)
  }

  /** No temporary branch occurs. */
  ghost predicate Plain(t: Tree) {
    t.Fork? ==> !t.temp && Plain(t.left) && Plain(t.right)
  }

  /** The arena holds tree `t`, whose root has parent link `up`. */
  ghost predicate Rep(s: Store, t: Tree, up: Option<Ptr>) {
    t.p in s &&
    match t
    case Tip(p, leaf) => s[p] == LeafNode(leaf)
    case Fork(p, _, _, _, _, l, r) =>
      && s[p] == NodeOf(t, up)
      && Rep(s, l, Some(p))
      && Rep(s, r, Some(p))
  }

  /** The branch record that stands for `t` below `up`. */
  function NodeOf(t: Tree, up: Option<Ptr>): Node
    requires t.Fork?
  {
    Branch(t.pivot, t.temp, t.color, t.maxEmpty, up, t.left.p, t.right.p)
  }

  function Gap(t: Tree): nat {
    match t
    case Tip(_, Empty(size)) => size
    case Tip(_, Used(_)) => 0
    case Fork(_, _, _, _, m, _, _) => m
  }

  function TreeColor(t: Tree): Color {
    if t.Fork? then t.color else Black
  }

  // ----- zippers -----

  /** The rest of a tree around one of its subtrees: the path from it up to the root. */
  datatype Ctx =
    | Top
    | Step(side: Side, p: Ptr, pivot: nat, color: Color, maxEmpty: nat, sib: Tree, up: Ctx)

  function Join(side: Side, p: Ptr, pivot: nat, color: Color, maxEmpty: nat, t: Tree, sib: Tree): (r: Tree)
    ensures r.Fork?
  {
    if side.Left? then Fork(p, pivot, false, color, maxEmpty, t, sib)
    else Fork(p, pivot, false, color, maxEmpty, sib, t)
  }

  function Pull(c: Ctx, t: Tree): (r: Tree)
    requires c.Step?
    ensures r.Fork?
  {
    Join(c.side, c.p, c.pivot, c.color, c.maxEmpty, t, c.sib)
  }

  function Child(side: Side, t: Tree): Tree
    requires t.Fork?
  {
    if side.Left? then t.left else t.right
  }

  function WithChild(side: Side, t: Tree, child: Tree): Tree
    requires t.Fork?
  {
    if side.Left? then t.(left := child) else t.(right := child)
  }

  function Push(side: Side, t: Tree, c: Ctx): Ctx
    requires t.Fork?
  {
    Step(side, t.p, t.pivot, t.color, t.maxEmpty, Child(side.Other(), t), c)
  }

  function Plug(c: Ctx, t: Tree): Tree
    decreases c
  {
    if c.Top? then t else Plug(c.up, Pull(c, t))
  }

  function Depth(c: Ctx): nat {
    if c.Top? then 0 else 1 + Depth(c.up)
  }

  /** `inner` hangs below `outer`. */
  function Append(inner: Ctx, outer: Ctx): Ctx {
    if inner.Top? then outer else inner.(up := Append(inner.up, outer))
  }

  function ParentOf(c: Ctx): Option<Ptr> {
    if c.Top? then None else Some(c.p)
  }

  function RootOf(c: Ctx, hole: Ptr): Ptr
    decreases c
  {
    if c.Top? then hole else RootOf(c.up, c.p)
  }

  ghost function PtrsC(c: Ctx): set<Ptr> {
    if c.Top? then {} else {c.p} + Ptrs(c.sib) + PtrsC(c.up)
  }

  ghost predicate DistinctC(c: Ctx) {
    c.Step? ==>
      && c.p !in Ptrs(c.sib) && c.p !in PtrsC(c.up) && Ptrs(c.sib) !! PtrsC(c.up)
      && Distinct(c.sib) && DistinctC(c.up)
  }

  /** The arena holds context `c` around the node `hole`. */
  ghost predicate RepC(s: Store, c: Ctx, hole: Ptr)
    decreases c
  {
    c.Step? ==>
      && c.p in s
      && s[c.p] == Branch(c.pivot, false, c.color, c.maxEmpty, ParentOf(c.up),
                          if c.side.Left? then hole else c.sib.p,
                          if c.side.Left? then c.sib.p else hole)
      && Rep(s, c.sib, Some(c.p))
      && RepC(s, c.up, c.p)
  }

  /** The arena with root pointer `root` holds one tree, read as `t` inside `c`. */
  ghost predicate Zip(s: Store, root: Ptr, c: Ctx, t: Tree) {
    && Rep(s, t, ParentOf(c))
    && RepC(s, c, t.p)
    && root == RootOf(c, t.p)
    && Distinct(t) && DistinctC(c) && Ptrs(t) !! PtrsC(c)
  }

  // ----- moving the focus -----

  lemma ZipDown(s: Store, root: Ptr, c: Ctx, t: Tree, side: Side)
    requires Zip(s, root, c, t) && t.Fork? && !t.temp
    ensures Zip(s, root, Push(side, t, c), Child(side, t))
    ensures Pull(Push(side, t, c), Child(side, t)) == t
  {
  }

  lemma ZipUp(s: Store, root: Ptr, c: Ctx, t: Tree)
    requires Zip(s, root, c, t) && c.Step?
    ensures Zip(s, root, c.up, Pull(c, t))
  {
  }

  lemma {:induction false} ZipTop(s: Store, root: Ptr, c: Ctx, t: Tree)
    requires Zip(s, root, c, t)
    ensures Zip(s, root, Top, Plug(c, t))
    decreases c
  {
    if c.Step? {
      ZipUp(s, root, c, t);
      ZipTop(s, root, c.up, Pull(c, t));
    }
  }

  lemma {:induction false} ZipInto(s: Store, root: Ptr, c: Ctx, t: Tree)
    requires Zip(s, root, Top, Plug(c, t))
    ensures Zip(s, root, c, t)
    decreases c
  {
    if c.Step? {
      var whole := Pull(c, t);
      ZipInto(s, root, c.up, whole);
      ZipDown(s, root, c.up, whole, c.side);
      assert Push(c.side, whole, c.up) == c;
    }
  }

  lemma {:induction false} PlugAppend(inner: Ctx, outer: Ctx, t: Tree)
    ensures Plug(Append(inner, outer), t) == Plug(outer, Plug(inner, t))
    decreases inner
  {
    if inner.Step? {
      PlugAppend(inner.up, outer, Pull(inner, t));
    }
  }

  lemma {:induction false} PlugPtrs(c: Ctx, t: Tree)
    ensures Ptrs(Plug(c, t)) == PtrsC(c) + Ptrs(t)
    decreases c
  {
    if c.Step? {
      PlugPtrs(c.up, Pull(c, t));
    }
  }

  lemma {:induction false} PtrsInStore(s: Store, t: Tree, up: Option<Ptr>)
    requires Rep(s, t, up)
    ensures Ptrs(t) <= s.Keys
  {
    if t.Fork? {
      PtrsInStore(s, t.left, Some(t.p));
      PtrsInStore(s, t.right, Some(t.p));
    }
  }

  /** The subtree rooted at node `q`, with its context inside `t`. */
  ghost function Locate(t: Tree, c: Ctx, q: Ptr): (r: (Ctx, Tree))
    requires q in Ptrs(t) && Plain(t)
    ensures r.1.p == q && Plain(r.1)
    ensures Plug(r.0, r.1) == Plug(c, t)
    decreases t
  {
    if t.p == q then (c, t)
    else if q in Ptrs(t.left) then Locate(t.left, Push(Left, t, c), q)
    else Locate(t.right, Push(Right, t, c), q)
  }

  // ----- frames -----

  /** The two arenas hold the same nodes at `ps`. */
  ghost predicate Agree(s: Store, s': Store, ps: set<Ptr>) {
    forall q | q in ps && q in s :: q in s' && s'[q] == s[q]
  }

  lemma {:induction false} RepFrame(s: Store, s': Store, t: Tree, up: Option<Ptr>)
    requires Rep(s, t, up)
    requires Agree(s, s', Ptrs(t))
    ensures Rep(s', t, up)
  {
    if t.Fork? {
      RepFrame(s, s', t.left, Some(t.p));
      RepFrame(s, s', t.right, Some(t.p));
    }
  }

  function Reparented(n: Node, up: Option<Ptr>): Node {
    if n.Branch? then n.(parent := up) else n
  }

  lemma RepReparent(s: Store, s': Store, t: Tree, up: Option<Ptr>, up': Option<Ptr>)
    requires Rep(s, t, up) && Distinct(t)
    requires Agree(s, s', Ptrs(t) - {t.p})
    requires t.p in s' && s'[t.p] == Reparented(s[t.p], up')
    ensures Rep(s', t, up')
  {
    if t.Fork? {
      RepFrame(s, s', t.left, Some(t.p));
      RepFrame(s, s', t.right, Some(t.p));
    }
  }

  lemma {:induction false} RepCFrame(s: Store, s': Store, c: Ctx, hole: Ptr)
    requires RepC(s, c, hole)
    requires Agree(s, s', PtrsC(c))
    ensures RepC(s', c, hole)
    decreases c
  {
    if c.Step? {
      RepFrame(s, s', c.sib, Some(c.p));
      RepCFrame(s, s', c.up, c.p);
    }
  }

  /** The child link of a branch on one side. */
  function Relinked(n: Node, side: Side, q: Ptr): Node
    requires n.Branch?
  {
    if side.Left? then n.(left := q) else n.(right := q)
  }

  /** Arena `s'` differs from `s` around the focus only by the link from the parent to it. */
  ghost predicate RelinkedAt(s: Store, s': Store, c: Ctx, q: Ptr) {
    c.Step? ==> c.p in s && c.p in s' && s[c.p].Branch? && s'[c.p] == Relinked(s[c.p], c.side, q)
  }

  /** Replacing the focused subtree: only the new subtree needs looking at. */
  lemma ZipReplace(s: Store, s': Store, root: Ptr, root': Ptr, c: Ctx, t: Tree, t': Tree)
    requires Zip(s, root, c, t)
    requires Rep(s', t', ParentOf(c)) && Distinct(t') && Ptrs(t') !! PtrsC(c)
    requires Agree(s, s', if c.Top? then {} else PtrsC(c) - {c.p})
    requires RelinkedAt(s, s', c, t'.p)
    requires root' == if c.Top? then t'.p else root
    ensures Zip(s', root', c, t')
  {
    if c.Step? {
      RepFrame(s, s', c.sib, Some(c.p));
      RepCFrame(s, s', c.up, c.p);
    }
  }

  /** Changing the data of the focused branch, but not its links. */
  lemma ZipSet(s: Store, root: Ptr, c: Ctx, t: Tree, t': Tree)
    requires Zip(s, root, c, t)
    requires t.Fork? && t'.Fork? && t'.p == t.p && t'.left == t.left && t'.right == t.right
    ensures t.p in s && s[t.p].Branch?
    ensures Zip(s[t.p := s[t.p].(pivot := t'.pivot, temp := t'.temp, color := t'.color, maxEmpty := t'.maxEmpty)],
                root, c, t')
  {
    var s' := s[t.p := s[t.p].(pivot := t'.pivot, temp := t'.temp, color := t'.color, maxEmpty := t'.maxEmpty)];
    RepFrame(s, s', t.left, Some(t.p));
    RepFrame(s, s', t.right, Some(t.p));
    if c.Step? {
      assert s'[c.p] == s[c.p];
    }
    ZipReplace(s, s', root, root, c, t, t');
  }

  /** Changing what the focused leaf holds. */
  lemma ZipSetLeaf(s: Store, root: Ptr, c: Ctx, t: Tree, leaf: Leaf)
    requires Zip(s, root, c, t) && t.Tip?
    ensures Zip(s[t.p := LeafNode(leaf)], root, c, Tip(t.p, leaf))
  {
    ZipReplace(s, s[t.p := LeafNode(leaf)], root, root, c, t, Tip(t.p, leaf));
  }

  /** Nodes outside the tree may come and go. */
  lemma ZipFrame(s: Store, s': Store, root: Ptr, c: Ctx, t: Tree)
    requires Zip(s, root, c, t) && Agree(s, s', Ptrs(t) + PtrsC(c))
    ensures Zip(s', root, c, t)
  {
    RepFrame(s, s', t, ParentOf(c));
    RepCFrame(s, s', c, t.p);
  }

  /** What the code reads at the focus: its links and its parent. */
  lemma Upward(s: Store, root: Ptr, c: Ctx, t: Tree)
    requires Zip(s, root, c, t)
    ensures t.p in s && NodeColor(s[t.p]) == TreeColor(t) && NodeGap(s[t.p]) == Gap(t)
    ensures t.Fork? ==> s[t.p] == NodeOf(t, ParentOf(c)) && t.left.p in s && t.right.p in s
    ensures t.Tip? ==> s[t.p] == LeafNode(t.leaf)
    ensures root == t.p <==> c.Top?
    ensures c.Step? ==>
      && c.p in s && s[c.p] == NodeOf(Pull(c, t), ParentOf(c.up)) && s[c.p].color == c.color
      && c.sib.p in s && c.sib.p != t.p && c.sib.p != c.p && t.p != c.p
      && NodeColor(s[c.sib.p]) == TreeColor(c.sib) && NodeGap(s[c.sib.p]) == Gap(c.sib)
      && s[c.sib.p].Branch? == c.sib.Fork?
  {
    if c.Step? {
      assert Rep(s, c.sib, Some(c.p));
      assert c.sib.p in Ptrs(c.sib) && t.p in Ptrs(t);
      RootInCtx(c, t.p);
    }
    if t.Fork? {
      assert Rep(s, t.left, Some(t.p)) && Rep(s, t.right, Some(t.p));
    }
  }

  lemma {:induction false} RootInCtx(c: Ctx, hole: Ptr)
    requires c.Step?
    ensures RootOf(c, hole) in PtrsC(c)
    decreases c
  {
    if c.up.Step? {
      RootInCtx(c.up, c.p);
    }
  }

  /** A focus that is the root has nothing above it. */
  lemma AtRoot(s: Store, root: Ptr, c: Ctx, t: Tree)
    requires Zip(s, root, c, t) && t.p == root
    ensures c.Top?
  {
    if c.Step? {
      RootInCtx(c, t.p);
    }
  }

  lemma {:induction false} PlugFork(c: Ctx, t: Tree)
    requires t.Fork?
    ensures Plug(c, t).Fork?
    decreases c
  {
    if c.Step? {
      PlugFork(c.up, Pull(c, t));
    }
  }
}
