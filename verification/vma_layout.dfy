/** How leaves and pivots divide the user address range into areas, and which of them are segments. */
module VmaLayout {
  import opened VmaNodes
  import opened VmaShape

  /** Addresses lo <= a < hi. */
  datatype Area = Area(lo: nat, hi: nat, leaf: Leaf)

  datatype Segment = Segment(start: nat, len: nat, flags: Flags)

  const END: nat := HIGHEST_USER_ADDRESS + 1

  /** The first `n` pivots rise strictly inside the range and are unharmed by packing. */
  ghost predicate Rising(ps: seq<nat>, n: nat)
    requires n <= |ps|
  {
    n > 0 ==>
      && 0 < ps[n - 1] < END && ps[n - 1] % 4 == 0
      && (n > 1 ==> ps[n - 2] < ps[n - 1])
      && Rising(ps, n - 1)
  }

  /** Pivots cut the range into non-empty areas. */
  ghost predicate Ordered(ps: seq<nat>) {
    Rising(ps, |ps|)
  }

  /** The same, pivot by pivot. */
  ghost predicate Increasing(ps: seq<nat>) {
    && (forall i | 0 <= i < |ps| :: 0 < ps[i] < END && ps[i] % 4 == 0)
    && (forall i, j | 0 <= i < j < |ps| :: ps[i] < ps[j])
  }

  lemma {:induction false} RisingIff(ps: seq<nat>, n: nat)
    requires n <= |ps|
    ensures Rising(ps, n) <==> Increasing(ps[..n])
  {
    if n > 0 {
      RisingIff(ps, n - 1);
      var a, b := ps[..n], ps[..n - 1];
      assert a == b + [ps[n - 1]];
      if Increasing(a) {
        assert forall i | 0 <= i < |b| :: b[i] == a[i];
        assert a[n - 1] == ps[n - 1];
        assert n > 1 ==> a[n - 2] == ps[n - 2];
      }
      if Rising(ps, n) {
        forall i, j | 0 <= i < j < n
          ensures a[i] < a[j]
        {
          if j == n - 1 {
            assert i < n - 2 ==> b[i] < b[n - 2];
          } else {
            assert b[i] < b[j];
          }
        }
      }
    }
  }

  lemma OrderedIff(ps: seq<nat>)
    ensures Ordered(ps) <==> Increasing(ps)
  {
    RisingIff(ps, |ps|);
    assert ps[..|ps|] == ps;
  }

  // ----- areas -----

  /** The areas of a subtree that covers addresses lo..hi-1. */
  ghost function AreasIn(t: Tree, lo: nat, hi: nat): (r: seq<Area>)
    ensures |r| == |Slots(t)|
  {
    match t
    case Tip(_, leaf) => [Area(lo, hi, leaf)]
    case Fork(_, pv, _, _, _, l, r) => AreasIn(l, lo, pv) + AreasIn(r, pv, hi)
  }

  ghost function Areas(t: Tree): (r: seq<Area>)
    ensures |r| == |Slots(t)|
  {
    AreasIn(t, 0, END)
  }

  /** The addresses that the focus of a context covers are LowOf(c)..HighOf(c)-1. */
  function LowOf(c: Ctx): nat {
    if c.Top? then 0 else if c.side.Left? then LowOf(c.up) else c.pivot
  }

  function HighOf(c: Ctx): nat {
    if c.Top? then END else if c.side.Left? then c.pivot else HighOf(c.up)
  }

  ghost function AreasBefore(c: Ctx): (r: seq<Area>)
    ensures |r| == |SlotsBefore(c)|
  {
    if c.Top? then []
    else if c.side.Left? then AreasBefore(c.up)
    else AreasBefore(c.up) + AreasIn(c.sib, LowOf(c.up), c.pivot)
  }

  ghost function AreasAfter(c: Ctx): seq<Area> {
    if c.Top? then []
    else if c.side.Left? then AreasIn(c.sib, c.pivot, HighOf(c.up)) + AreasAfter(c.up)
    else AreasAfter(c.up)
  }

  /** Only the areas of the focus depend on the focus. */
  lemma {:induction false} PlugAreas(c: Ctx, t: Tree)
    ensures Areas(Plug(c, t)) == AreasBefore(c) + AreasIn(t, LowOf(c), HighOf(c)) + AreasAfter(c)
    decreases c
  {
    if c.Step? {
      PlugAreas(c.up, Pull(c, t));
      var mid := AreasIn(t, LowOf(c), HighOf(c));
      if c.side.Left? {
        Regroup(AreasBefore(c.up), mid, [], AreasIn(c.sib, c.pivot, HighOf(c.up)), AreasAfter(c.up));
      } else {
        Regroup(AreasBefore(c.up), AreasIn(c.sib, LowOf(c.up), c.pivot), [], mid, AreasAfter(c.up));
      }
    } else {
      assert [] + Areas(t) + [] == Areas(t);
    }
  }

  /** The areas, from the leaves and pivots alone. */
  ghost function FlatAreas(ss: seq<Slot>, ps: seq<nat>, lo: nat, hi: nat): (r: seq<Area>)
    requires |ss| == |ps| + 1
    ensures |r| == |ss|
  {
    seq(|ss|, i requires 0 <= i < |ss| =>
      Area(if i == 0 then lo else ps[i - 1], if i == |ps| then hi else ps[i], ss[i].leaf))
  }

  lemma {:induction false} AreasFlat(t: Tree, lo: nat, hi: nat)
    ensures AreasIn(t, lo, hi) == FlatAreas(Slots(t), Pivots(t), lo, hi)
  {
    if t.Fork? {
      AreasFlat(t.left, lo, t.pivot);
      AreasFlat(t.right, t.pivot, hi);
    }
  }

  lemma SameAreas(t: Tree, t': Tree)
    requires SameFlat(t, t')
    ensures Areas(t) == Areas(t')
  {
    AreasFlat(t, 0, END);
    AreasFlat(t', 0, END);
  }

  lemma {:induction false} BoundsFlat(c: Ctx)
    ensures LowOf(c) == if PivotsBefore(c) == [] then 0 else PivotsBefore(c)[|PivotsBefore(c)| - 1]
    ensures HighOf(c) == if PivotsAfter(c) == [] then END else PivotsAfter(c)[0]
  {
    if c.Step? {
      BoundsFlat(c.up);
    }
  }

  // ----- segments -----

  ghost function SegmentOf(a: Area): Segment
    requires a.leaf.Used?
  {
    Segment(a.lo, if a.lo <= a.hi then a.hi - a.lo else 0, a.leaf.flags)
  }

  ghost function Segments(areas: seq<Area>): set<Segment> {
    set a | a in areas && a.leaf.Used? :: SegmentOf(a)
  }

  lemma SegmentsConcat(a: seq<Area>, b: seq<Area>)
    ensures Segments(a + b) == Segments(a) + Segments(b)
  {
    forall s | s in Segments(a) + Segments(b)
      ensures s in Segments(a + b)
    {
      if s in Segments(a) {
        var x :| x in a && x.leaf.Used? && SegmentOf(x) == s;
        assert x in a + b;
      } else {
        var x :| x in b && x.leaf.Used? && SegmentOf(x) == s;
        assert x in a + b;
      }
    }
  }

  /** Every gap knows its own size. */
  ghost predicate Sized(areas: seq<Area>) {
    forall a | a in areas && a.leaf.Empty? :: a.leaf.size == a.hi - a.lo
  }

  ghost predicate NoAdjacentGaps(areas: seq<Area>) {
    forall i | 0 <= i < |areas| - 1 :: areas[i].leaf.Used? || areas[i + 1].leaf.Used?
  }

  /** The areas tile the whole range, in order, each of them non-empty. */
  ghost predicate Tiled(areas: seq<Area>) {
    && |areas| > 0 && areas[0].lo == 0 && areas[|areas| - 1].hi == END
    && (forall i | 0 <= i < |areas| :: areas[i].lo < areas[i].hi)
    && (forall i | 0 <= i < |areas| - 1 :: areas[i].hi == areas[i + 1].lo)
  }

  lemma OrderedTiled(t: Tree)
    requires Ordered(Pivots(t))
    ensures Tiled(Areas(t))
  {
    OrderedIff(Pivots(t));
    AreasFlat(t, 0, END);
  }

  /** A pivot of the focus lies strictly between the bounds of the focus. */
  lemma PivotBetween(c: Ctx, t: Tree)
    requires Ordered(Pivots(Plug(c, t))) && t.Fork?
    ensures LowOf(c) < t.pivot < HighOf(c)
  {
    PlugFlat(c, t);
    BoundsFlat(c);
    var ps := Pivots(Plug(c, t));
    OrderedIff(ps);
    var i := |PivotsBefore(c)| + |Pivots(t.left)|;
    assert ps[i] == t.pivot;
    if PivotsBefore(c) != [] {
      assert ps[|PivotsBefore(c)| - 1] == LowOf(c);
    }
    if PivotsAfter(c) != [] {
      assert ps[|PivotsBefore(c)| + |Pivots(t)|] == HighOf(c);
    }
  }

  /** The bounds of any focus enclose at least one address. */
  lemma BoundsNonEmpty(c: Ctx, t: Tree)
    requires Ordered(Pivots(Plug(c, t)))
    ensures LowOf(c) < HighOf(c) <= END
  {
    PlugFlat(c, t);
    BoundsFlat(c);
    var ps := Pivots(Plug(c, t));
    OrderedIff(ps);
    if PivotsBefore(c) != [] {
      assert ps[|PivotsBefore(c)| - 1] == LowOf(c);
    }
    if PivotsAfter(c) != [] {
      assert ps[|PivotsBefore(c)| + |Pivots(t)|] == HighOf(c);
    }
  }

  /** Cutting the focus at an aligned inner address keeps the pivots ordered. */
  lemma OrderedCut(before: seq<nat>, x: nat, after: seq<nat>)
    requires Ordered(before + after) && x % 4 == 0
    requires before == [] || before[|before| - 1] < x
    requires after == [] || x < after[0]
    requires 0 < x < END
    ensures Ordered(before + [x] + after)
  {
    var ps, qs := before + after, before + [x] + after;
    OrderedIff(ps);
    OrderedIff(qs);
    forall i | 0 <= i < |qs|
      ensures 0 < qs[i] < END && qs[i] % 4 == 0
    {
      CutAt(before, x, after, i);
    }
    forall i, j | 0 <= i < j < |qs|
      ensures qs[i] < qs[j]
    {
      CutPair(before, x, after, i, j);
    }
  }

  lemma CutAt(before: seq<nat>, x: nat, after: seq<nat>, i: nat)
    requires i < |before + [x] + after|
    ensures (before + [x] + after)[i]
      == if i < |before| then (before + after)[i] else if i == |before| then x else (before + after)[i - 1]
  {
  }

  lemma CutPair(before: seq<nat>, x: nat, after: seq<nat>, i: nat, j: nat)
    requires Increasing(before + after) && i < j < |before + [x] + after|
    requires before == [] || before[|before| - 1] < x
    requires after == [] || x < after[0]
    ensures (before + [x] + after)[i] < (before + [x] + after)[j]
  {
    var ps, n := before + after, |before|;
    CutAt(before, x, after, i);
    CutAt(before, x, after, j);
    assert after != [] ==> after[0] == ps[n];
    assert n > 0 ==> before[n - 1] == ps[n - 1];
    assert i < n - 1 ==> ps[i] < ps[n - 1];
    assert j - 1 > n ==> ps[n] < ps[j - 1];
  }

  // ----- lookups -----

  lemma {:induction false} TiledOrder(a: seq<Area>, i: nat, j: nat)
    requires Tiled(a) && i < j < |a|
    ensures a[i].hi <= a[j].lo
    decreases j
  {
    if i < j - 1 {
      TiledOrder(a, i, j - 1);
    }
  }

  /** No address lies in two areas. */
  lemma SameArea(a: seq<Area>, i: nat, j: nat, addr: nat)
    requires Tiled(a) && i < |a| && j < |a|
    requires a[i].lo <= addr < a[i].hi && a[j].lo <= addr < a[j].hi
    ensures i == j
  {
    if i < j {
      TiledOrder(a, i, j);
    } else if j < i {
      TiledOrder(a, j, i);
    }
  }

  /** The area and the slot of a focused leaf. */
  lemma FocusTip(c: Ctx, t: Tree)
    requires t.Tip?
    ensures Areas(Plug(c, t)) == AreasBefore(c) + [Area(LowOf(c), HighOf(c), t.leaf)] + AreasAfter(c)
    ensures Slots(Plug(c, t)) == SlotsBefore(c) + [Slot(t.p, t.leaf)] + SlotsAfter(c)
  {
    PlugAreas(c, t);
    PlugFlat(c, t);
  }

  /** Leaf `q` of the tree covers exactly lo..hi-1, and the address lies there. */
  ghost predicate HoldsAddress(w: Tree, q: Ptr, lo: nat, hi: nat, addr: nat) {
    lo <= addr < hi && exists j ::
      0 <= j < |Slots(w)| == |Areas(w)| && Slots(w)[j] == Slot(q, Areas(w)[j].leaf) && Areas(w)[j].lo == lo && Areas(w)[j].hi == hi
  }

  lemma HoldsFound(c: Ctx, t: Tree, addr: nat)
    requires t.Tip? && LowOf(c) <= addr < HighOf(c)
    ensures HoldsAddress(Plug(c, t), t.p, LowOf(c), HighOf(c), addr)
  {
    var w, j := Plug(c, t), |SlotsBefore(c)|;
    FocusTip(c, t);
    assert Slots(w)[j] == Slot(t.p, t.leaf) && Areas(w)[j] == Area(LowOf(c), HighOf(c), t.leaf);
  }

  /** The descent from `t` in `c` to the leaf that holds the address. */
  ghost function LeafFor(c: Ctx, t: Tree, addr: nat): (Ctx, Tree)
    decreases t
  {
    if t.Tip? then (c, t)
    else if addr < t.pivot then LeafFor(Push(Left, t, c), t.left, addr)
    else LeafFor(Push(Right, t, c), t.right, addr)
  }

  /** The leaf found for an address is the leaf of the area that holds the address. */
  lemma FoundArea(c: Ctx, t: Tree, i: nat, addr: nat)
    requires t.Tip? && Ordered(Pivots(Plug(c, t))) && i < |Areas(Plug(c, t))|
    requires Areas(Plug(c, t))[i].lo <= addr < Areas(Plug(c, t))[i].hi && LowOf(c) <= addr < HighOf(c)
    ensures |SlotsBefore(c)| == i && Slots(Plug(c, t))[i] == Slot(t.p, t.leaf)
    ensures Areas(Plug(c, t))[i] == Area(LowOf(c), HighOf(c), t.leaf)
  {
    OrderedTiled(Plug(c, t));
    FocusTip(c, t);
    SameArea(Areas(Plug(c, t)), i, |SlotsBefore(c)|, addr);
  }

  // ----- one gap replaced by a segment and what is left of the gap -----

  /** What is left of an area when addresses lo..hi-1 in it become a segment. */
  ghost function InsertPieces(a: Area, lo: nat, hi: nat, flags: Flags): seq<Area> {
    var used := Area(lo, hi, Used(flags));
    if a.lo < lo then
      var before := Area(a.lo, lo, Empty(lo - a.lo));
      if hi < a.hi then [before, used, Area(hi, a.hi, Empty(a.hi - hi))] else [before, used]
    else
      if hi < a.hi then [used, Area(hi, a.hi, Empty(a.hi - hi))] else [used]
  }

  lemma PiecesSegments(x: Area, lo: nat, hi: nat, flags: Flags)
    requires x.leaf.Empty? && lo <= hi
    ensures Segments([x]) == {}
    ensures Segments(InsertPieces(x, lo, hi, flags)) == {Segment(lo, hi - lo, flags)}
  {
    var p := InsertPieces(x, lo, hi, flags);
    var u := Area(lo, hi, Used(flags));
    assert u in p && SegmentOf(u) == Segment(lo, hi - lo, flags);
    assert forall y | y in p && y.leaf.Used? :: y == u;
  }

  lemma Segments3(a: seq<Area>, b: seq<Area>, c: seq<Area>)
    ensures Segments(a + b + c) == Segments(a) + Segments(b) + Segments(c)
  {
    SegmentsConcat(a, b);
    SegmentsConcat(a + b, c);
  }

  lemma InsertedSegments(before: seq<Area>, x: Area, after: seq<Area>, lo: nat, hi: nat, flags: Flags)
    requires x.leaf.Empty? && lo <= hi
    ensures Segments(before + InsertPieces(x, lo, hi, flags) + after)
         == Segments(before + [x] + after) + {Segment(lo, hi - lo, flags)}
  {
    Segments3(before, [x], after);
    Segments3(before, InsertPieces(x, lo, hi, flags), after);
    PiecesSegments(x, lo, hi, flags);
  }

  lemma InsertedSizes(before: seq<Area>, x: Area, after: seq<Area>, lo: nat, hi: nat, flags: Flags)
    requires Sized(before + [x] + after) || (before == [] && after == [])
    ensures Sized(before + InsertPieces(x, lo, hi, flags) + after)
  {
    var p := InsertPieces(x, lo, hi, flags);
    forall y | y in before + p + after && y.leaf.Empty?
      ensures y.leaf.size == y.hi - y.lo
    {
      if y !in p {
        assert y in before + [x] + after;
      }
    }
  }

  lemma InsertedGaps(before: seq<Area>, x: Area, after: seq<Area>, lo: nat, hi: nat, flags: Flags)
    requires x.leaf.Empty? && NoAdjacentGaps(before + [x] + after)
    ensures NoAdjacentGaps(before + InsertPieces(x, lo, hi, flags) + after)
  {
    var a, p := before + [x] + after, InsertPieces(x, lo, hi, flags);
    var b := before + p + after;
    var n := |before|;
    assert a[n] == x;
    forall k | 0 <= k < |b| - 1
      ensures b[k].leaf.Used? || b[k + 1].leaf.Used?
    {
      if k + 1 < n {
        assert b[k] == a[k] && b[k + 1] == a[k + 1];
      } else if k >= n + |p| {
        assert b[k] == a[k - |p| + 1] && b[k + 1] == a[k - |p| + 2];
      } else {
        assert k + 1 == n ==> b[k] == a[n - 1];
        assert k + 1 == n + |p| ==> b[k + 1] == a[n + 1];
        assert k >= n ==> b[k] == p[k - n];
        assert k + 1 < n + |p| ==> b[k + 1] == p[k + 1 - n];
      }
    }
  }

  lemma ForkAreas(t: Tree, lo: nat, hi: nat)
    requires t.Fork? && t.left.Tip? && t.right.Tip?
    ensures AreasIn(t, lo, hi) == [Area(lo, t.pivot, t.left.leaf), Area(t.pivot, hi, t.right.leaf)]
    ensures Slots(t) == [Slot(t.left.p, t.left.leaf), Slot(t.right.p, t.right.leaf)]
  {
  }
}
