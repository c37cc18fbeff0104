/** What the pointer writes of a rotation do to the tree that the arena holds. */
module VmaLinks {
  import opened Wrappers
  import opened VmaNodes
  import opened VmaShape

  /** `q` and its parent, if any, are branches. */
  predicate HasParentLink(s: Store, q: Ptr) {
    && q in s && s[q].Branch?
    && (s[q].parent.Some? ==> s[q].parent.value in s && s[s[q].parent.value].Branch?)
  }

  /** Whether branch `q` is the left child; None for the root. */
  function IsLeftSide(s: Store, q: Ptr): Option<bool>
    requires HasParentLink(s, q)
  {
    if s[q].parent.None? then None else Some(s[s[q].parent.value].left == q)
  }

  /** The parent of branch `q` made to point at `with` instead. */
  function RelinkParent(s: Store, q: Ptr, with: Ptr): Store
    requires HasParentLink(s, q)
  {
    match IsLeftSide(s, q)
    case Some(true) => s[s[q].parent.value := s[s[q].parent.value].(left := with)]
    case Some(false) => s[s[q].parent.value := s[s[q].parent.value].(right := with)]
    case None => s
  }

  /** Branch `q` with its largest gap recomputed from its children. */
  function RecalculateMaxEmptyAreaSize(s: Store, q: Ptr): Store
    requires q in s && s[q].Branch? && s[q].left in s && s[q].right in s
  {
    s[q := s[q].(maxEmpty := Max(NodeGap(s[s[q].left]), NodeGap(s[s[q].right])))]
  }

  /** The nodes a left rotation touches, read off the arena. */
  ghost predicate RotLBefore(s: Store, c: Ctx, t: Tree)
    requires t.Fork? && t.right.Fork?
  {
    var top, inner := t.right, t.right.left;
    && t.p in s && s[t.p] == Branch(t.pivot, false, t.color, t.maxEmpty, ParentOf(c), t.left.p, t.right.p)
    && top.p in s && inner.p in s && t.left.p in s && top.right.p in s
    && s[top.p] == Branch(top.pivot, false, top.color, top.maxEmpty, Some(t.p), top.left.p, top.right.p)
    && NodeGap(s[t.left.p]) == Gap(t.left)
    && NodeGap(s[inner.p]) == Gap(inner)
    && NodeGap(s[top.right.p]) == Gap(top.right)
    && t.p != top.p && t.p != inner.p && top.p != inner.p
    && t.left.p !in {t.p, top.p, inner.p}
    && top.right.p !in {t.p, top.p, inner.p}
    && (c.Step? ==>
        && c.p in s && s[c.p].Branch? && (s[c.p].left == t.p <==> c.side.Left?)
        && c.p !in {t.p, top.p, inner.p, t.left.p, top.right.p})
  }

  ghost predicate RotLAfter(s: Store, s': Store, root: Ptr, root': Ptr, c: Ctx, t: Tree)
    requires t.Fork? && t.right.Fork?
  {
    var top, inner := t.right, t.right.left;
    && s'.Keys == s.Keys && t.p in s && top.p in s && inner.p in s
    && s'[t.p] == NodeOf(RotL(t).left, Some(top.p))
    && s'[top.p] == NodeOf(RotL(t), ParentOf(c))
    && s'[inner.p] == Reparented(s[inner.p], Some(t.p))
    && RelinkedAt(s, s', c, top.p)
    && root' == (if c.Top? then top.p else root)
    && forall q | q in s && q !in {t.p, top.p, inner.p} && ParentOf(c) != Some(q) :: s'[q] == s[q]
  }

  lemma RotLView(s: Store, root: Ptr, c: Ctx, t: Tree)
    requires Zip(s, root, c, t) && t.Fork? && !t.temp && t.right.Fork? && !t.right.temp
    ensures RotLBefore(s, c, t)
  {
    var top := t.right;
    assert Rep(s, t.left, Some(t.p)) && Rep(s, top, Some(t.p));
    assert Rep(s, top.left, Some(top.p)) && Rep(s, top.right, Some(top.p));
    assert Distinct(top);
    assert t.left.p in Ptrs(t.left) && top.left.p in Ptrs(top.left) && top.right.p in Ptrs(top.right);
  }

  lemma RotLZip(s: Store, s': Store, root: Ptr, root': Ptr, c: Ctx, t: Tree)
    requires Zip(s, root, c, t) && t.Fork? && !t.temp && t.right.Fork? && !t.right.temp
    requires RotLAfter(s, s', root, root', c, t)
    ensures Zip(s', root', c, RotL(t))
  {
    RotLFlat(t);
    RotLDistinct(t);
    RotLView(s, root, c, t);
    var top := t.right;
    assert Rep(s, top, Some(t.p));
    RepFrame(s, s', t.left, Some(t.p));
    RepFrame(s, s', top.right, Some(top.p));
    RepReparent(s, s', top.left, Some(top.p), Some(t.p));
    ZipReplace(s, s', root, root', c, t, RotL(t));
  }

  /** The nodes a right rotation touches, read off the arena. */
  ghost predicate RotRBefore(s: Store, c: Ctx, t: Tree)
    requires t.Fork? && t.left.Fork?
  {
    var top, inner := t.left, t.left.right;
    && t.p in s && s[t.p] == Branch(t.pivot, false, t.color, t.maxEmpty, ParentOf(c), t.left.p, t.right.p)
    && top.p in s && inner.p in s && t.right.p in s && top.left.p in s
    && s[top.p] == Branch(top.pivot, false, top.color, top.maxEmpty, Some(t.p), top.left.p, top.right.p)
    && NodeGap(s[t.right.p]) == Gap(t.right)
    && NodeGap(s[inner.p]) == Gap(inner)
    && NodeGap(s[top.left.p]) == Gap(top.left)
    && t.p != top.p && t.p != inner.p && top.p != inner.p
    && t.right.p !in {t.p, top.p, inner.p}
    && top.left.p !in {t.p, top.p, inner.p}
    && (c.Step? ==>
        && c.p in s && s[c.p].Branch? && (s[c.p].left == t.p <==> c.side.Left?)
        && c.p !in {t.p, top.p, inner.p, t.right.p, top.left.p})
  }

  ghost predicate RotRAfter(s: Store, s': Store, root: Ptr, root': Ptr, c: Ctx, t: Tree)
    requires t.Fork? && t.left.Fork?
  {
    var top, inner := t.left, t.left.right;
    && s'.Keys == s.Keys && t.p in s && top.p in s && inner.p in s
    && s'[t.p] == NodeOf(RotR(t).right, Some(top.p))
    && s'[top.p] == NodeOf(RotR(t), ParentOf(c))
    && s'[inner.p] == Reparented(s[inner.p], Some(t.p))
    && RelinkedAt(s, s', c, top.p)
    && root' == (if c.Top? then top.p else root)
    && forall q | q in s && q !in {t.p, top.p, inner.p} && ParentOf(c) != Some(q) :: s'[q] == s[q]
  }

  lemma RotRView(s: Store, root: Ptr, c: Ctx, t: Tree)
    requires Zip(s, root, c, t) && t.Fork? && !t.temp && t.left.Fork? && !t.left.temp
    ensures RotRBefore(s, c, t)
  {
    var top := t.left;
    assert Rep(s, t.right, Some(t.p)) && Rep(s, top, Some(t.p));
    assert Rep(s, top.right, Some(top.p)) && Rep(s, top.left, Some(top.p));
    assert Distinct(top);
    assert t.right.p in Ptrs(t.right) && top.right.p in Ptrs(top.right) && top.left.p in Ptrs(top.left);
  }

  lemma RotRZip(s: Store, s': Store, root: Ptr, root': Ptr, c: Ctx, t: Tree)
    requires Zip(s, root, c, t) && t.Fork? && !t.temp && t.left.Fork? && !t.left.temp
    requires RotRAfter(s, s', root, root', c, t)
    ensures Zip(s', root', c, RotR(t))
  {
    RotRFlat(t);
    RotRDistinct(t);
    RotRView(s, root, c, t);
    var top := t.left;
    assert Rep(s, top, Some(t.p));
    RepFrame(s, s', t.right, Some(t.p));
    RepFrame(s, s', top.left, Some(top.p));
    RepReparent(s, s', top.right, Some(top.p), Some(t.p));
    ZipReplace(s, s', root, root', c, t, RotR(t));
  }
}
