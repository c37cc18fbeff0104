/**
 * The temporary node of a deletion. A black branch over two leaves is taken out by way of a temporary
 * branch that ends up, as a leaf, in the tree. The kernel has one node for this. Writing it while it is
 * linked, or freeing it, ends the deletion badly; this module says exactly when that happens.
 */
module VmaTemp {
  import opened Wrappers
  import opened VmaNodes
  import opened VmaShape
  import opened VmaBalance
  import opened VmaGaps
  import opened VmaLayout
  import opened VmaInsert
  import opened VmaDelete
  import opened VmaRemove
  import opened VmaJoin

  /**
   * How a deletion ends: well, by writing the shared node while it is linked, or by freeing it. What the
   * code does after such a write or such a free is not followed.
   */
  datatype Fate = Fine | Overwrites | Frees

  ghost predicate Linked(temp: Option<Ptr>, w: Tree) {
    temp.Some? && temp.value in Ptrs(w)
  }

  /** The shared node holds a leaf if it is linked at all. */
  ghost predicate LeafOnly(temp: Option<Ptr>, w: Tree) {
    temp.Some? ==> temp.value !in Forks(w)
  }

  ghost predicate SameTemp(temp: Option<Ptr>, keys: set<Ptr>, forks: set<Ptr>, keys': set<Ptr>, forks': set<Ptr>) {
    temp.Some? ==> (temp.value in keys' <==> temp.value in keys) && (temp.value in forks' ==> temp.value in forks)
  }

  // ----- one removal -----

  /** The branch goes by way of the temporary node. */
  function Takes(st: Tree): bool
    requires st.Fork?
  {
    st.color.Black? && st.left.Tip? && st.right.Tip?
  }

  /** The leaf that is freed when the branch does not go by way of the temporary node. */
  function Dropped(st: Tree): Ptr
    requires st.Fork? && HasLeafChild(st)
  {
    if st.left.Fork? then st.right.p
    else if st.right.Fork? then st.left.p
    else if st.left.leaf.Used? then st.right.p
    else st.left.p
  }

  ghost function TakeFate(temp: Option<Ptr>, linked: set<Ptr>, st: Tree): Fate
    requires st.Fork? && HasLeafChild(st)
  {
    if temp.None? then Fine
    else if Takes(st) then if temp.value in linked then Overwrites else Fine
    else if temp.value == Dropped(st) then Frees
    else Fine
  }

  /** How the removal of branch `t` in `c` ends. */
  ghost function RemoveFate(temp: Option<Ptr>, c: Ctx, t: Tree): Fate
    requires t.Fork?
  {
    TakeFate(temp, PtrsC(c) + Ptrs(t), Target(t))
  }

  // ----- an arena that holds no tree -----

  /** Some tree can be read from node `p`. */
  ghost predicate Readable(s: Store, p: Ptr) {
    exists t, up :: Rep(s, t, up) && t.p == p
  }

  lemma {:induction false} NoOtherTree(s: Store, w: Tree, up: Option<Ptr>, temp: Ptr, n: Node, t: Tree, up': Option<Ptr>)
    requires Rep(s, w, up) && w.Fork? && temp in Ptrs(w) && temp !in Forks(w) && n.Branch? && n.parent.None?
    requires t.p == w.p
    ensures !Rep(s[temp := n], t, up')
  {
    var s' := s[temp := n];
    if Rep(s', t, up') {
      assert s'[w.p] == NodeOf(w, up);
      var side := if temp in Ptrs(w.left) then Left else Right;
      assert Rep(s', Child(side, t), Some(w.p));
      if Child(side, w).Fork? {
        NoOtherTree(s, Child(side, w), Some(w.p), temp, n, Child(side, t), Some(w.p));
      }
    }
  }

  /** A linked leaf overwritten by a branch without a parent: the root leads to no tree any more. */
  lemma OverwrittenUnreadable(s: Store, root: Ptr, c: Ctx, t: Tree, temp: Ptr, n: Node)
    requires Zip(s, root, c, t) && t.Fork? && temp in PtrsC(c) + Ptrs(t) && temp !in ForksC(c) + Forks(t)
    requires n.Branch? && n.parent.None?
    ensures !Readable(s[temp := n], root)
  {
    ZipTop(s, root, c, t);
    var w := Plug(c, t);
    PlugFork(c, t);
    PlugPtrs(c, t);
    PlugForks(c, t);
    if Readable(s[temp := n], root) {
      var t', up' :| Rep(s[temp := n], t', up') && t'.p == root;
      NoOtherTree(s, w, None, temp, n, t', up');
    }
  }

  // ----- a whole deletion -----

  datatype Run = Run(fate: Fate, tree: Tree)

  /** The first branch above the focus whose pivot lies between two gaps. */
  ghost function Meeting(c: Ctx, t: Tree): Option<(Ctx, Tree)>
    decreases c
  {
    if c.Top? then None
    else if BetweenGaps(Pull(c, t)) then Some((c.up, Pull(c, t)))
    else Meeting(c.up, Pull(c, t))
  }

  ghost predicate BetweenGaps(p: Tree) {
    p.Fork? && LastLeaf(p.left).leaf.Empty? && FirstLeaf(p.right).leaf.Empty?
  }

  /** The two gaps at the pivot with their joint size written into both. */
  ghost function Combined(p: Tree): Tree
    requires BetweenGaps(p)
  {
    WithGaps(p, Empty(LastLeaf(p.left).leaf.size + FirstLeaf(p.right).leaf.size))
  }

  /** The join loop from tree `w` on, with shared node `k`. Every join leaves fewer leaves. */
  ghost function LoopRun(k: Ptr, w: Tree, addr: nat): Run
    decreases |Slots(w)|
  {
    var (c, t) := LeafFor(Top, w, addr);
    match Meeting(Refreshed(c, Gap(t)), t)
    case None => Run(Fine, Above(c, t))
    case Some((c', p)) => if BetweenGaps(p) then JoinRunWithin(k, |Slots(w)|, c', p, addr) else Run(Fine, w)
  }

  ghost function JoinRunWithin(k: Ptr, n: nat, c: Ctx, p: Tree, addr: nat): Run
    requires BetweenGaps(p)
    decreases n, 0
  {
    var w := Removed(c, Combined(p), k);
    if !RemoveFate(Some(k), c, Combined(p)).Fine? then Run(RemoveFate(Some(k), c, Combined(p)), p)
    else if |Slots(w)| < n then LoopRun(k, w, addr)
    else Run(Fine, w)
  }

  /** After segment leaf `t` in `c` has become a gap. */
  ghost function GapRun(k: Ptr, c: Ctx, t: Tree, addr: nat): Run {
    if c.Top? then Run(Fine, t)
    else if c.sib.Tip? && c.sib.leaf.Empty? && t.Tip? && t.leaf.Empty? then
      JoinRunWithin(k, |Slots(Plug(c, t))|, c.up, Pull(c, t), addr)
    else LoopRun(k, Plug(c, t), addr)
  }

  /** The leaf of the address, turned into a gap. */
  ghost function Gapped(c: Ctx, t: Tree): Tree {
    Tip(t.p, Empty(if LowOf(c) <= HighOf(c) then HighOf(c) - LowOf(c) else 0))
  }

  /** The deletion of the segment at `addr` as a function of the tree, with shared node `k`. */
  ghost function DeleteRun(k: Ptr, w: Tree, addr: nat): Run {
    var (c, t) := LeafFor(Top, w, addr);
    GapRun(k, c, Gapped(c, t), addr)
  }

  ghost function DeleteFate(temp: Option<Ptr>, w: Tree, addr: nat): Fate {
    if temp.None? then Fine else DeleteRun(temp.value, w, addr).fate
  }

  /** Without a shared node all goes well; with one, all goes as the function says. */
  ghost predicate Follows(temp: Option<Ptr>, run: Run, fate: Fate, w: Tree) {
    if temp.None? then fate.Fine? else fate == run.fate && (fate.Fine? ==> w == run.tree)
  }

  /** The shared node; any node stands in where there is none. */
  ghost function NodeIn(temp: Option<Ptr>): Ptr {
    if temp.Some? then temp.value else 0
  }

  /** What the climb from the gap does at the branch it meets. */
  ghost predicate Joined(temp: Option<Ptr>, at: Option<(Ctx, Tree)>, fate: Fate, again: bool, w: Tree, w': Tree) {
    if at.None? then !again && fate.Fine? && w' == w
    else
      && BetweenGaps(at.value.1)
      && fate == RemoveFate(temp, at.value.0, Combined(at.value.1)) && again == fate.Fine?
      && (fate.Fine? && temp.Some? ==> w' == Removed(at.value.0, Combined(at.value.1), temp.value))
  }

  lemma LoopStep(temp: Option<Ptr>, w: Tree, addr: nat, fate: Fate, again: bool, w': Tree)
    requires var (c, t) := LeafFor(Top, w, addr);
      Joined(temp, Meeting(Refreshed(c, Gap(t)), t), fate, again, Above(c, t), w')
    requires again ==> |Slots(w')| < |Slots(w)|
    ensures again && temp.Some? ==> LoopRun(temp.value, w, addr) == LoopRun(temp.value, w', addr)
    ensures !again ==> Follows(temp, LoopRun(NodeIn(temp), w, addr), fate, w')
  {
  }

  // ----- what a removal leaves -----

  /** Without the temporary node the outcome does not depend on it. */
  lemma RemovedAny(c: Ctx, t: Tree, k: Ptr, k': Ptr)
    requires t.Fork? && (Takes(Target(t)) ==> k == k')
    ensures Removed(c, t, k) == Removed(c, t, k')
  {
    assert Moved(Target(t), k) == Moved(Target(t), k');
  }

  /** A removal by way of the temporary node leaves that node linked. */
  lemma TakenIsLinked(c: Ctx, t: Tree, k: Ptr)
    requires t.Fork? && Takes(Target(t)) && SameFlat(Plug(TargetCtx(c, t), Lone(Target(t), k)), Removed(c, t, k))
    ensures k in Ptrs(Removed(c, t, k))
  {
    PlugPtrs(TargetCtx(c, t), Lone(Target(t), k));
  }

  lemma RemovedLinks(temp: Option<Ptr>, c: Ctx, t: Tree, k: Ptr)
    requires t.Fork? && k == Moved(Target(t), k).p && (Takes(Target(t)) && temp.Some? ==> k == temp.value)
    requires SameFlat(Plug(TargetCtx(c, t), Lone(Target(t), k)), Removed(c, t, k))
    ensures Removed(c, t, k) == Removed(c, t, if temp.Some? then temp.value else k)
    ensures Takes(Target(t)) ==> k in Ptrs(Removed(c, t, k))
  {
    RemovedAny(c, t, k, if temp.Some? then temp.value else k);
    if Takes(Target(t)) {
      TakenIsLinked(c, t, k);
    }
  }

  // ----- between the steps of a removal -----

  /** Branch `t` in `c` is ready to be removed: its two gaps hold their joint size, all else is in order. */
  ghost predicate Removable(c: Ctx, t: Tree) {
    && t.Fork? && Distinct(t) && Balanced(t) && Fits(c, BlackHeight(t), t.color) && TopColor(c, t.color).Black?
    && ExactC(c) && ExactOff(t.left, LastLeaf(t.left).p) && ExactOff(t.right, FirstLeaf(t.right).p)
    && LastLeaf(t.left).leaf.Empty? && FirstLeaf(t.right).leaf.Empty?
  }

  lemma TargetReady(c: Ctx, t: Tree)
    requires Removable(c, t)
    ensures Plain(t) && Plain(Target(t)) && Balanced(Target(t))
    ensures Target(t).color.Red? ==> Target(t).left.Tip? && Target(t).right.Tip?
  {
    TargetBalanced(c, t);
    LeafChildCases(Target(t));
    BalancedPlain(t);
    BalancedPlain(Target(t));
  }

  /** A black target leaves its place short, and what moves there is a branch. */
  lemma MovedReady(c: Ctx, t: Tree, k: Ptr)
    requires Removable(c, t) && Target(t).color.Black?
    ensures Short(TargetCtx(c, t), 0, Keeper(t, k))
    ensures var x := Moved(Target(t), k);
      && x.Fork? && (x.temp <==> Takes(Target(t)))
      && (x.temp ==> x.color.Black? && x.left.Tip? && x.right.Tip? && (x.left.leaf.Empty? || x.right.leaf.Empty?))
  {
    TargetBalanced(c, t);
    TargetReady(c, t);
    TargetOff(c, t, k);
    TargetShort(TargetCtx(c, t), Target(t), Keeper(t, k));
    FirstLeafTarget(t);
    assert Plain(Target(t).left) && Plain(Target(t).right);
  }

  lemma RemovedIs(c: Ctx, t: Tree, x: Tree, e: Ctx, y: Tree, w: Tree)
    requires Removable(c, t)
    requires x == Moved(Target(t), x.p) && w == Above(e, y)
    requires if Target(t).color.Red? then e == TargetCtx(c, t) && y == x
      else x.Fork? && e == Fixed(TargetCtx(c, t), x) && y == SettledAs(e, x)
    ensures w == Removed(c, t, x.p) && Ptrs(w) == PtrsC(e) + Ptrs(y)
  {
    var st := Target(t);
    assert st.color.Red? ==> st.left.Tip? && st.right.Tip? by {
      TargetReady(c, t);
    }
    AbovePtrs(e, y);
  }

  lemma AbovePtrs(e: Ctx, y: Tree)
    ensures Ptrs(Above(e, y)) == PtrsC(e) + Ptrs(y)
  {
    PlugPtrs(e, y);
    if e.Step? {
      UpdatedFlat(e.up, Pull(e, y));
    }
  }

  lemma RemovedFlat(c: Ctx, t: Tree, k: Ptr)
    requires Removable(c, t)
    ensures Balanced(Removed(c, t, k))
    ensures SameFlat(Plug(TargetCtx(c, t), Lone(Target(t), Moved(Target(t), k).p)), Removed(c, t, k))
  {
    RemovedTree(c, t, k);
  }

  lemma RemovedSafely(temp: Option<Ptr>, c: Ctx, t: Tree, k: Ptr)
    requires Removable(c, t) && k == Moved(Target(t), k).p && (Takes(Target(t)) && temp.Some? ==> k == temp.value)
    ensures var w := Removed(c, t, k);
      && Balanced(w) && TreeColor(w).Black? && ExactOff(w, Keeper(t, k))
      && SameFlat(Plug(TargetCtx(c, t), Lone(Target(t), k)), w)
      && w == Removed(c, t, if temp.Some? then temp.value else k) && (Takes(Target(t)) ==> k in Ptrs(w))
  {
    RemovedTree(c, t, k);
    RemovedLinks(temp, c, t, k);
  }

  lemma {:induction false} MinForks(t: Tree, c: Ctx)
    requires t.Fork?
    ensures ForksC(MinCtx(t, c)) + Forks(MinTree(t)) == ForksC(c) + Forks(t)
    decreases t
  {
    if t.left.Fork? {
      MinForks(t.left, Push(Left, t, c));
    }
  }

  lemma TargetForks(c: Ctx, t: Tree)
    requires t.Fork?
    ensures ForksC(TargetCtx(c, t)) + Forks(Target(t)) == ForksC(c) + Forks(t)
  {
    if !HasLeafChild(t) {
      MinForks(t.right, Push(Right, Repivoted(t), c));
    }
  }

  lemma FewerForks(c: Ctx, t: Tree, k: Ptr, w: Tree)
    requires t.Fork? && SameFlat(Plug(TargetCtx(c, t), Lone(Target(t), k)), w)
    ensures Forks(w) <= ForksC(c) + Forks(t)
  {
    PlugForks(TargetCtx(c, t), Lone(Target(t), k));
    TargetForks(c, t);
  }

  lemma {:induction false} SetEndsDistinct(t: Tree, leaf: Leaf)
    requires Distinct(t)
    ensures Distinct(SetLast(t, leaf)) && Distinct(SetFirst(t, leaf))
  {
    if t.Fork? {
      SetEndsDistinct(t.left, leaf);
      SetEndsDistinct(t.right, leaf);
      SetFirstKeeps(t.left, leaf);
      SetLastKeeps(t.right, leaf);
    }
  }

  lemma WithGapsDistinct(t: Tree, leaf: Leaf)
    requires t.Fork? && Distinct(t)
    ensures Distinct(WithGaps(t, leaf))
  {
    SetEndsDistinct(t.left, leaf);
    SetEndsDistinct(t.right, leaf);
    SetLastKeeps(t.left, leaf);
    SetFirstKeeps(t.right, leaf);
  }

  lemma {:induction false} SetEndsForks(t: Tree, leaf: Leaf)
    ensures Forks(SetLast(t, leaf)) == Forks(SetFirst(t, leaf)) == Forks(t)
  {
    if t.Fork? {
      SetEndsForks(t.left, leaf);
      SetEndsForks(t.right, leaf);
    }
  }

  lemma WithGapsForks(t: Tree, leaf: Leaf)
    requires t.Fork?
    ensures Forks(WithGaps(t, leaf)) == Forks(t)
  {
    SetEndsForks(t.left, leaf);
    SetEndsForks(t.right, leaf);
  }

  /** The shared node is still no branch, and a linked one is still linked. */
  ghost predicate TempStays(temp: Option<Ptr>, w: Tree, w': Tree) {
    LeafOnly(temp, w') && (Linked(temp, w) ==> Linked(temp, w'))
  }

  lemma RewrittenKeepsTemp(temp: Option<Ptr>, c: Ctx, t: Tree, t': Tree)
    requires t.Tip? && t'.Tip? && t'.p == t.p && LeafOnly(temp, Plug(c, t))
    ensures TempStays(temp, Plug(c, t), Plug(c, t'))
  {
    PlugForks(c, t);
    PlugForks(c, t');
    PlugPtrs(c, t);
    PlugPtrs(c, t');
  }

  /** What holds once the leaf of a segment has been rewritten as a gap. */
  lemma GapMade(temp: Option<Ptr>, s: Store, root: Ptr, c: Ctx, t: Tree, addr: nat, size: nat)
    requires Zip(s, root, c, t) && t.Tip? && t.leaf.Used? && LowOf(c) <= addr < HighOf(c) && size == HighOf(c) - LowOf(c)
    requires Good(Plug(c, t)) && s.Keys == Ptrs(Plug(c, t)) && LeafOnly(temp, Plug(c, t))
    requires NoAdjacentGaps(Areas(Plug(c, t))) && (Sized(Areas(Plug(c, t))) || NeverInserted(Plug(c, t)))
    ensures Gapped(c, t) == Tip(t.p, Empty(size))
    ensures SoundAround(s[t.p := LeafNode(Empty(size))], root, c, Gapped(c, t))
    ensures var w := Plug(c, Gapped(c, t));
      && Ordered(Pivots(w)) && Joining(w, |SlotsBefore(c)|, t.p, addr)
      && Segments(Areas(w)) == Without(Segments(Areas(Plug(c, t))), addr) && TempStays(temp, Plug(c, t), w)
  {
    assert SoundAround(s[t.p := LeafNode(Empty(size))], root, c, Tip(t.p, Empty(size))) by {
      SoundFocus(s, root, c, t);
      ZipSetLeaf(s, root, c, t, Empty(size));
    }
    FreedTree(c, t, addr);
    RewrittenKeepsTemp(temp, c, t, Gapped(c, t));
  }

  /** A removal that ends well frees neither a linked shared node nor makes it a branch. */
  lemma RemovalKeepsTemp(temp: Option<Ptr>, c: Ctx, t: Tree, k: Ptr, w: Tree)
    requires t.Fork? && SameFlat(Plug(TargetCtx(c, t), Lone(Target(t), k)), w) && k == Moved(Target(t), k).p
    requires RemoveFate(temp, c, t).Fine? && LeafOnly(temp, Plug(c, t))
    requires Target(t).color.Red? ==> Target(t).left.Tip? && Target(t).right.Tip?
    ensures TempStays(temp, Plug(c, t), w)
  {
    var cx, st := TargetCtx(c, t), Target(t);
    PlugForks(c, t);
    PlugPtrs(c, t);
    FewerForks(c, t, k, w);
    TargetPtrs(c, t);
    TargetForks(c, t);
    PlugPtrs(cx, Lone(st, k));
  }

  /** Branch `t` in `c` lies between two gaps, and the tree around it is in order. */
  ghost predicate Joinable(c: Ctx, t: Tree) {
    && BetweenGaps(t) && Distinct(t) && Balanced(t) && Fits(c, BlackHeight(t), t.color) && TopColor(c, t.color).Black?
    && ExactC(c) && Exact(t.left) && Exact(t.right) && Ordered(Pivots(Plug(c, t)))
  }

  /** The branch between two gaps, with their joint size written into both, is ready to be removed. */
  lemma CombinedReady(c: Ctx, t: Tree)
    requires Joinable(c, t)
    ensures Removable(c, Combined(t)) && Target(Combined(t)).pivot % 4 == 0
    ensures Ptrs(Combined(t)) == Ptrs(t) && Forks(Combined(t)) == Forks(t)
  {
    var leaf := Empty(LastLeaf(t.left).leaf.size + FirstLeaf(t.right).leaf.size);
    assert Combined(t) == WithGaps(t, leaf);
    WithGapsReady(c, t, leaf);
    assert Forks(WithGaps(t, leaf)) == Forks(t) by {
      WithGapsForks(t, leaf);
    }
    assert Distinct(WithGaps(t, leaf)) by {
      WithGapsDistinct(t, leaf);
    }
  }

  lemma CombinedRemoved(temp: Option<Ptr>, c: Ctx, t: Tree, k: Ptr, w: Tree)
    requires BetweenGaps(t) && Plain(t) && Removable(c, Combined(t)) && LeafOnly(temp, Plug(c, t))
    requires Ptrs(Combined(t)) == Ptrs(t) && Forks(Combined(t)) == Forks(t)
    requires var t' := Combined(t);
      && SameFlat(Plug(TargetCtx(c, t'), Lone(Target(t'), k)), w) && k == Moved(Target(t'), k).p
      && RemoveFate(temp, c, t').Fine?
    ensures Areas(w) == LeftOf(c, t) + [JoinedArea(c, t)] + RightOf(c, t)
    ensures HeldBy(w, |LeftOf(c, t)|, Keeper(Combined(t), k)) && TempStays(temp, Plug(c, t), w)
  {
    JoinedAreas(c, t, Empty(LastLeaf(t.left).leaf.size + FirstLeaf(t.right).leaf.size), k, w);
    assert TempStays(temp, Plug(c, t), w) by {
      PlugForks(c, t);
      PlugPtrs(c, t);
      PlugForks(c, Combined(t));
      PlugPtrs(c, Combined(t));
      TargetReady(c, Combined(t));
      RemovalKeepsTemp(temp, c, Combined(t), k, w);
    }
  }
}
