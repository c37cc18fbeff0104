/** The allocator in front of the tree: requests to map and unmap, and the tasks they start. */
module VmaAllocator {
  import opened Wrappers
  import opened VmaNodes
  import opened VmaShape
  import opened VmaBalance
  import opened VmaLayout
  import opened VmaInsert
  import opened VmaJoin
  import opened VmaTemp
  import opened VmaSafety
  import opened VmaTree
  import opened VmaTasks

  // ----- what a found leaf says about the segments -----

  lemma SegmentsApart(w: Tree)
    requires Ordered(Pivots(w))
    ensures Apart(Segments(Areas(w)))
  {
    var a := Areas(w);
    OrderedTiled(w);
    forall s, s', addr: nat | s in Segments(a) && s' in Segments(a) && Contains(s, addr) && Contains(s', addr)
      ensures s == s'
    {
      var x :| x in a && x.leaf.Used? && SegmentOf(x) == s;
      var x' :| x' in a && x'.leaf.Used? && SegmentOf(x') == s';
      var i :| 0 <= i < |a| && a[i] == x;
      var i' :| 0 <= i' < |a| && a[i'] == x';
      SameArea(a, i, i', addr);
    }
  }

  lemma GapIsFree(c: Ctx, t: Tree, start: nat, len: nat)
    requires t.Tip? && t.leaf.Empty? && Ordered(Pivots(Plug(c, t)))
    requires LowOf(c) <= start && start + len <= HighOf(c)
    ensures FreeRange(Areas(Plug(c, t)), start, start + len) && Free(Segments(Areas(Plug(c, t))), start, len)
  {
    FocusTip(c, t);
    assert Areas(Plug(c, t))[|AreasBefore(c)|] in Areas(Plug(c, t));
    forall s, addr: nat | s in Segments(Areas(Plug(c, t))) && start <= addr < start + len
      ensures !Contains(s, addr)
    {
      NoSegmentIn(c, t, addr);
    }
  }

  /** The gap found is maximal: a range that leaves it meets the segment behind it. */
  lemma BehindTheGap(c: Ctx, t: Tree, start: nat, len: nat)
    requires t.Tip? && Ordered(Pivots(Plug(c, t))) && NoAdjacentGaps(Areas(Plug(c, t)))
    requires LowOf(c) <= start < HighOf(c) && start + len <= END && len > 0
    requires t.leaf.Used? || HighOf(c) < start + len
    ensures !Free(Segments(Areas(Plug(c, t))), start, len)
  {
    var a, n := Areas(Plug(c, t)), |AreasBefore(c)|;
    if t.leaf.Used? {
      SegmentIn(c, t);
      assert Contains(Segment(LowOf(c), HighOf(c) - LowOf(c), t.leaf.flags), start);
    } else {
      OrderedTiled(Plug(c, t));
      FocusTip(c, t);
      assert a[n] == Area(LowOf(c), HighOf(c), t.leaf);
      assert n + 1 < |a|;
      var x := a[n + 1];
      assert x.lo == HighOf(c) && x.lo < x.hi && (a[n].leaf.Used? || x.leaf.Used?);
      assert x in a && SegmentOf(x) in Segments(a) && Contains(SegmentOf(x), HighOf(c));
    }
  }

  /** The leaf that an insertion returns is the leaf at the start of the new segment. */
  lemma NewLeafAt(s: Store, root: Ptr, w: Tree, q: Ptr, start: nat, hi: nat, flags: Flags) returns (c: Ctx, t: Tree)
    requires Zip(s, root, Top, w) && Plain(w) && Ordered(Pivots(w)) && LeafCovers(w, q, start, hi, flags) && start < hi <= END
    ensures Zip(s, root, c, t) && Plug(c, t) == w && t == Tip(q, Used(flags)) && LowOf(c) == start && HighOf(c) == hi
  {
    var (d, u) := LeafFor(Top, w, start);
    c, t := d, u;
    LeafForFinds(Top, w, start);
    ZipInto(s, root, c, t);
    var j :| 0 <= j < |Slots(w)| && Slots(w)[j] == Slot(q, Used(flags)) && Areas(w)[j] == Area(start, hi, Used(flags));
    FoundArea(c, t, j, start);
  }

  lemma AddedLocked(segs: set<Segment>, start: nat, len: nat, flags: Flags)
    requires Free(segs, start, len) && len > 0
    ensures Without(segs + {Segment(start, len, flags)}, start) == segs
  {
    assert Contains(Segment(start, len, flags), start);
  }

  lemma UnlockedRemoved(segs: set<Segment>, s: Segment)
    requires s.len > 0
    ensures Without(Without(segs, s.start) + {s}, s.start) == Without(segs, s.start)
  {
    assert Contains(s, s.start);
  }

  lemma WordAligned(x: nat)
    requires x % PAGE_SIZE == 0
    ensures x % 4 == 0
  {
    assert x == 4 * (1024 * (x / PAGE_SIZE));
  }

  /** What a process may ask of its allocator. */
  datatype Request =
    | AskMapAt(start: nat, len: nat, flags: SegmentFlags)
    | AskUnmap(addr: nat)
    | AskRun(id: nat, poll: Poll)

  /** The request is one that its documentation allows, and the task it runs is there. */
  ghost predicate Admissible(request: Request, live: map<nat, Task>) {
    match request
    case AskMapAt(start, len, _) =>
      start % PAGE_SIZE == 0 && len % PAGE_SIZE == 0 && len > 0 && start + len <= HIGHEST_USER_ADDRESS + 1
    case AskUnmap(addr) => addr <= HIGHEST_USER_ADDRESS
    case AskRun(id, poll) => id in live && (poll.Failed? ==> live[id].MapTask?)
  }

  /** The event is the call that was asked for; a task it creates is named `id`. */
  ghost predicate Asked(request: Request, id: nat, e: Event) {
    match request
    case AskMapAt(start, len, flags) => e.MapAt? && e == MapAt(id, start, len, flags, e.mapped)
    case AskUnmap(addr) => e.Unmap? && e == Unmap(id, addr, e.unmapped)
    case AskRun(own, poll) => e == Ran(own, poll)
  }

  /** Every admissible request is answered, and no other. */
  ghost predicate Replies(request: Request, id: nat, live: map<nat, Task>, e: Option<Event>) {
    (e.Some? <==> Admissible(request, live)) && (e.Some? ==> Asked(request, id, e.value))
  }

  class VMAAllocator {
    const tree: VMATree
    ghost var live: map<nat, Task>
    ghost var failed: set<nat>

    ghost function Abs(): State
      reads this, tree
    {
      State(Segments(Areas(tree.shape)), live, failed)
    }

    ghost predicate Valid()
      reads this, tree
    {
      tree.Valid() && Owned(Abs())
    }

    constructor (sharedTemp: Option<Ptr>, nodesLeft: nat)
      ensures Valid() && fresh(tree) && Abs() == START && tree.sharedTemp == sharedTemp && tree.nodesLeft == nodesLeft
    {
      tree := new VMATree(sharedTemp, nodesLeft);
      live, failed := map[], {};
    }

    /** Exact: the request succeeds if and only if the range is free and there are nodes enough to split its gap. */
    method StartTryMapAt(start: nat, len: nat, flags: SegmentFlags, ghost id: nat) returns (r: Result<Task, MapError>)
      requires Valid() && start % PAGE_SIZE == 0 && len % PAGE_SIZE == 0 && len > 0
      requires start + len <= HIGHEST_USER_ADDRESS + 1 && id !in live
      modifies this, tree
      ensures Valid() && Next(old(Abs()), MapAt(id, start, len, flags, r), Abs())
      ensures r == Err(SegmentAlreadyExists) <==> !Free(old(Abs()).segs, start, len)
      ensures r.Ok? <==> Free(old(Abs()).segs, start, len) && old(tree.nodesLeft) >= NodesNeeded(old(Abs()).segs, start, len)
      ensures tree.nodesLeft == old(tree.nodesLeft) - if r.Ok? then NodesNeeded(old(Abs()).segs, start, len) else 0
    {
      var newEnd := start + len - 1;
      ghost var w := tree.shape;
      BalancedPlain(w);
      var leaf, parentAndSide, leafStart, end, c, t := tree.GetLeafContaining(start, w);
      Upward(tree.store, tree.root, c, t);
      if end < newEnd {
        BehindTheGap(c, t, start, len);
        return Err(SegmentAlreadyExists);
      }
      if tree.store[leaf].leaf.Used? {
        BehindTheGap(c, t, start, len);
        return Err(SegmentAlreadyExists);
      }
      GapIsFree(c, t, start, len);
      r := InsertLocked(start, len, flags, id);
    }

    method InsertLocked(start: nat, len: nat, flags: SegmentFlags, ghost id: nat) returns (r: Result<Task, MapError>)
      requires Valid() && start % PAGE_SIZE == 0 && len % PAGE_SIZE == 0 && len > 0 && id !in live
      requires FreeRange(Areas(tree.shape), start, start + len) && Free(Abs().segs, start, len)
      modifies this, tree
      ensures Valid() && Next(old(Abs()), MapAt(id, start, len, flags, r), Abs())
      ensures r != Err(SegmentAlreadyExists) && (r.Ok? <==> old(tree.nodesLeft) >= NodesNeeded(old(Abs()).segs, start, len))
      ensures tree.nodesLeft == old(tree.nodesLeft) - if r.Ok? then NodesNeeded(old(Abs()).segs, start, len) else 0
    {
      ghost var st := Abs();
      FreeInside(tree.shape, start, start + len);
      WordAligned(start);
      WordAligned(len);
      var newLeaf := tree.Insert(start, len, NodeFlags(flags));
      if newLeaf.Err? {
        return Err(OutOfMemory);
      }
      LockNew(newLeaf.value, start, len, NodeFlags(flags));
      AddedLocked(st.segs, start, len, NodeFlags(flags));
      r := Ok(MapTask(start, len / PAGE_SIZE, flags));
      live := live[id := r.value];
      StepKeeps(st, MapAt(id, start, len, flags, r), Abs());
    }

    method LockNew(leaf: Ptr, start: nat, len: nat, ghost flags: Flags)
      requires tree.Valid() && LeafCovers(tree.shape, leaf, start, start + len, flags) && len > 0 && start + len <= END
      modifies tree
      ensures tree.Valid() && tree.nodesLeft == old(tree.nodesLeft)
      ensures Segments(Areas(tree.shape)) ==
        Without(old(Segments(Areas(tree.shape))), start) + {Locked(Segment(start, len, flags), true)}
    {
      BalancedPlain(tree.shape);
      ghost var c, t := NewLeafAt(tree.store, tree.root, tree.shape, leaf, start, start + len, flags);
      tree.SetLocked(leaf, true, c, t);
    }

    method StartUnmap(addr: nat, ghost id: nat) returns (r: Result<Task, UnmapError>)
      requires Valid() && addr <= HIGHEST_USER_ADDRESS && id !in live
      modifies this, tree
      ensures Valid() && Next(old(Abs()), Unmap(id, addr, r), Abs())
    {
      ghost var st := Abs();
      ghost var w := tree.shape;
      BalancedPlain(w);
      var leaf, parentAndSide, start, end, c, t := tree.GetLeafContaining(addr, w);
      Upward(tree.store, tree.root, c, t);
      if tree.store[leaf].leaf.Empty? {
        NoSegmentIn(c, t, addr);
        UnmapRefused(st, id, addr);
        return Err(SegmentAlreadyUnmapped);
      }
      ghost var s := Segment(start, end + 1 - start, t.leaf.flags);
      SegmentIn(c, t);
      if tree.store[leaf].leaf.flags.locked {
        UnmapLocked(st, id, addr, s);
        return Err(SegmentLocked);
      }
      var task := LockAndStart(leaf, start, end + 1 - start, addr, id, c, t);
      r := Ok(task);
    }

    method LockAndStart(leaf: Ptr, start: nat, len: nat, ghost addr: nat, ghost id: nat, ghost c: Ctx, ghost t: Tree)
      returns (task: Task)
      requires Valid() && id !in live && Zip(tree.store, tree.root, c, t) && Plug(c, t) == tree.shape
      requires t.Tip? && t.leaf.Used? && leaf == t.p && !t.leaf.flags.locked
      requires LowOf(c) == start && HighOf(c) == start + len && start <= addr < start + len
      requires Segment(start, len, t.leaf.flags) in Abs().segs
      modifies this, tree
      ensures Valid() && Next(old(Abs()), Unmap(id, addr, Ok(task)), Abs())
    {
      ghost var st, s := Abs(), Segment(start, len, t.leaf.flags);
      SegmentsApart(tree.shape);
      SameWithout(st.segs, s, start, addr);
      tree.SetLocked(leaf, true, c, t);
      task := UnmapTask(start, len / PAGE_SIZE);
      live := live[id := task];
      UnmapStarted(st, id, addr, s, task, Abs());
    }

    /** How a slice of a task ends: as the deletion of its segment does, if the slice is the last one. */
    ghost function SliceFate(task: Task, poll: Poll): Fate
      reads tree
    {
      if poll.Done? then DeleteFate(tree.sharedTemp, tree.shape, task.start) else Fine
    }

    /** One slice of a map task; the lock it asserts on completion is held. */
    method RunMapTask(task: Task, poll: Poll, ghost id: nat) returns (fate: Fate)
      requires Valid() && task.MapTask? && id in live && live[id] == task
      modifies this, tree
      ensures fate == old(SliceFate(task, poll)) && (fate.Overwrites? ==> !Readable(tree.store, tree.root))
      ensures fate.Fine? ==> Valid() && Next(old(Abs()), Ran(id, poll), Abs())
    {
      fate := Fine;
      ghost var st := Abs();
      if poll.Failed? {
        live, failed := live - {id}, failed + {task.start};
      } else if poll.Done? {
        ghost var s := TaskSegment(st, id);
        TaskInside(tree.shape, s);
        UnlockOwn(task.start, s);
        UnlockedRemoved(st.segs, Locked(s, false));
        assert Locked(s, false) in Segments(Areas(tree.shape)) && Contains(Locked(s, false), task.start);
        fate := tree.Delete(task.start);
        if !fate.Fine? {
          return;
        }
        live := live - {id};
      }
      StepKeeps(st, Ran(id, poll), Abs());
    }

    /** The leaf at the start of a completed map task is used and locked, as the code asserts. */
    method UnlockOwn(start: nat, ghost s: Segment)
      requires tree.Valid() && start <= HIGHEST_USER_ADDRESS
      requires s in Segments(Areas(tree.shape)) && s.start == start && s.len > 0 && s.flags.locked
      modifies tree
      ensures tree.Valid()
      ensures Segments(Areas(tree.shape)) == Without(old(Segments(Areas(tree.shape))), start) + {Locked(s, false)}
      ensures DeleteFate(tree.sharedTemp, tree.shape, start) == old(DeleteFate(tree.sharedTemp, tree.shape, start))
    {
      ghost var w := tree.shape;
      BalancedPlain(w);
      var leaf, parentAndSide, leafStart, leafEnd, c, t := tree.GetLeafContaining(start, w);
      Upward(tree.store, tree.root, c, t);
      assert Contains(s, start);
      FoundSegment(c, t, start);
      SegmentIn(c, t);
      SegmentsApart(w);
      OneSegment(Segments(Areas(w)), Segment(LowOf(c), HighOf(c) - LowOf(c), t.leaf.flags), s, start);
      assert tree.store[leaf].LeafNode? && tree.store[leaf].leaf.Used?;
      assert tree.store[leaf].leaf.flags.locked;
      tree.SetLocked(leaf, false, c, t);
      SameFate(tree.sharedTemp, w, start, Used(t.leaf.flags.(locked := false)));
    }

    /** One slice of an unmap task, which cannot fail. */
    method RunUnmapTask(task: Task, poll: Poll, ghost id: nat) returns (fate: Fate)
      requires Valid() && task.UnmapTask? && id in live && live[id] == task && !poll.Failed?
      modifies this, tree
      ensures fate == old(SliceFate(task, poll)) && (fate.Overwrites? ==> !Readable(tree.store, tree.root))
      ensures fate.Fine? ==> Valid() && Next(old(Abs()), Ran(id, poll), Abs())
    {
      fate := Fine;
      ghost var st := Abs();
      if poll.Done? {
        ghost var s := TaskSegment(st, id);
        TaskInside(tree.shape, s);
        fate := tree.Delete(task.start);
        if !fate.Fine? {
          return;
        }
        live := live - {id};
      }
      StepKeeps(st, Ran(id, poll), Abs());
    }

    /** Answers one request; a request that its documentation rules out is not made. */
    method Answer(request: Request, tasks: map<nat, Task>, id: nat)
      returns (fate: Fate, tasks': map<nat, Task>, ghost e: Option<Event>)
      requires Valid() && live == tasks && id !in tasks
      modifies this, tree
      ensures tree.sharedTemp.None? ==> fate.Fine?
      ensures fate.Overwrites? ==> !Readable(tree.store, tree.root)
      ensures fate.Fine? ==> Valid() && live == tasks' && tasks'.Keys <= tasks.Keys + {id}
      ensures Replies(request, id, tasks, e)
      ensures fate.Fine? ==> Moves(old(Abs()), e, Abs())
      ensures !fate.Fine? ==> request.AskRun? && request.id in tasks && fate == old(SliceFate(tasks[request.id], request.poll))
    {
      fate, tasks', e := Fine, tasks, None;
      match request
      case AskMapAt(start, len, flags) =>
        if start % PAGE_SIZE == 0 && len % PAGE_SIZE == 0 && len > 0 && start + len <= HIGHEST_USER_ADDRESS + 1 {
          var r := StartTryMapAt(start, len, flags, id);
          e := Some(MapAt(id, start, len, flags, r));
          tasks' := if r.Ok? then tasks[id := r.value] else tasks;
        }
      case AskUnmap(addr) =>
        if addr <= HIGHEST_USER_ADDRESS {
          var r := StartUnmap(addr, id);
          e := Some(Unmap(id, addr, r));
          tasks' := if r.Ok? then tasks[id := r.value] else tasks;
        }
      case AskRun(own, poll) =>
        if own in tasks && tasks[own].MapTask? {
          fate := RunMapTask(tasks[own], poll, own);
          e := Some(Ran(own, poll));
          tasks' := if poll.Pending? then tasks else tasks - {own};
        } else if own in tasks && !poll.Failed? {
          fate := RunUnmapTask(tasks[own], poll, own);
          e := Some(Ran(own, poll));
          tasks' := if poll.Pending? then tasks else tasks - {own};
        }
    }
  }

  /**
   * Any schedule of requests on a new allocator follows the protocol, and none of its assertions fails,
   * up to the first deletion that ends badly. Without a shared node no deletion does.
   */
  method Serve(sharedTemp: Option<Ptr>, nodesLeft: nat, requests: seq<Request>)
    returns (a: VMAAllocator, fate: Fate, ghost states: seq<State>, ghost events: seq<Option<Event>>, ghost last: Tree)
    ensures Trace(states, events) && states[0] == START && a.tree.sharedTemp == sharedTemp
    ensures |events| <= |requests| && forall i | 0 <= i < |events| :: Replies(requests[i], i, states[i].live, events[i])
    ensures sharedTemp.None? ==> fate.Fine?
    ensures fate.Fine? ==> a.Valid() && states[|events|] == a.Abs() && |events| == |requests|
    ensures !fate.Fine? ==> |events| < |requests| && requests[|events|].AskRun? && requests[|events|].id in states[|events|].live
    ensures fate.Overwrites? ==> !Readable(a.tree.store, a.tree.root)
    ensures !fate.Fine? ==> Segments(Areas(last)) == states[|events|].segs && requests[|events|].poll.Done?
    ensures !fate.Fine? ==> fate == DeleteFate(sharedTemp, last, states[|events|].live[requests[|events|].id].start)
  {
    a := new VMAAllocator(sharedTemp, nodesLeft);
    fate := Fine;
    states, events, last := [a.Abs()], [], a.tree.shape;
    var tasks: map<nat, Task> := map[];
    for i := 0 to |requests|
      invariant fresh(a) && fresh(a.tree) && a.Valid() && a.live == tasks && forall id | id in tasks :: id < i
      invariant fate.Fine? && a.tree.sharedTemp == sharedTemp && |events| == i
      invariant Trace(states, events) && states[0] == START && states[|events|] == a.Abs()
      invariant forall k | 0 <= k < i :: Replies(requests[k], k, states[k].live, events[k])
    {
      ghost var e;
      last := a.tree.shape;
      fate, tasks, e := a.Answer(requests[i], tasks, i);
      if !fate.Fine? {
        return;
      }
      TraceMore(states, events, e, a.Abs());
      states, events := states + [a.Abs()], events + [e];
    }
  }

  lemma TraceMore(states: seq<State>, events: seq<Option<Event>>, e: Option<Event>, st: State)
    requires Trace(states, events) && Moves(states[|events|], e, st)
    ensures Trace(states + [st], events + [e])
  {
  }

  lemma UnmapRefused(st: State, id: nat, addr: nat)
    requires forall s | s in st.segs :: !Contains(s, addr)
    ensures Next(st, Unmap(id, addr, Err(SegmentAlreadyUnmapped)), st)
  {
  }

  lemma UnmapLocked(st: State, id: nat, addr: nat, s: Segment)
    requires s in st.segs && Contains(s, addr) && s.flags.locked
    ensures Next(st, Unmap(id, addr, Err(SegmentLocked)), st)
  {
  }

  lemma UnmapStarted(st: State, id: nat, addr: nat, s: Segment, task: Task, st': State)
    requires Owned(st) && id !in st.live && s in st.segs && Contains(s, addr) && !s.flags.locked
    requires task == UnmapTask(s.start, s.len / PAGE_SIZE)
    requires st' == State(Without(st.segs, addr) + {Locked(s, true)}, st.live[id := task], st.failed)
    ensures Next(st, Unmap(id, addr, Ok(task)), st') && Owned(st')
  {
    assert UnmapStep(st, id, addr, Ok(task), st');
    StepKeeps(st, Unmap(id, addr, Ok(task)), st');
  }

  lemma OneSegment(segs: set<Segment>, s: Segment, s': Segment, addr: nat)
    requires Apart(segs) && s in segs && s' in segs && Contains(s, addr) && Contains(s', addr)
    ensures s == s'
  {
  }

  lemma SameWithout(segs: set<Segment>, s: Segment, a: nat, b: nat)
    requires Apart(segs) && s in segs && Contains(s, a) && Contains(s, b)
    ensures Without(segs, a) == Without(segs, b)
  {
  }

  lemma TaskInside(w: Tree, s: Segment)
    requires Ordered(Pivots(w)) && s in Segments(Areas(w)) && s.len > 0
    ensures s.start <= HIGHEST_USER_ADDRESS
  {
    var a := Areas(w);
    OrderedTiled(w);
    var x :| x in a && x.leaf.Used? && SegmentOf(x) == s;
    var i :| 0 <= i < |a| && a[i] == x;
    if i < |a| - 1 {
      TiledOrder(a, i, |a| - 1);
    }
  }
}
